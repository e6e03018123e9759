/** The socket code of one endpoint as it runs: global lists and sockets that
    are updated in place, and loops over what the kernel answers.  Every method
    is tied to the function of the Sockets module that says what it does. */
module SocketEngine {
  import opened Bytes
  import opened Lists
  import opened Packets
  import opened Sockets

  /** One answer to adb_write. */
  datatype WriteAnswer =
    | Took(n: nat)
    | WouldBlock        // EAGAIN
    | Interrupted       // EINTR
    | Broken            // any other error

  function Min(a: nat, b: nat): nat {
    if a < b then a else b
  }

  /** What the answers amount to when one packet of `len` bytes is offered by
      local_socket_enqueue, which takes EINTR for an error.  The kernel blocks
      when the answers run out. */
  function OfferResult(answers: seq<WriteAnswer>, len: nat): (r: WriteResult)
    ensures PossibleWrite(r, len)
  {
    if len == 0 || answers == [] || answers[0].WouldBlock? then WriteResult(0, false)
    else if answers[0].Took? && answers[0].n > 0 then
      var k := Min(answers[0].n, len);
      var rest := OfferResult(answers[1..], len - k);
      WriteResult(k + rest.taken, rest.failed)
    else WriteResult(0, true)
  }

  /** What the answers amount to when a write event works through a backlog. */
  function DrainResult(answers: seq<WriteAnswer>, queue: seq<bytes>): (r: WriteResult)
    ensures PossibleWrite(r, |Flat(queue)|)
    decreases |answers|, |queue|
  {
    if queue == [] then WriteResult(0, false)
    else if queue[0] == [] then DrainResult(answers, queue[1..])
    else if answers == [] || answers[0].WouldBlock? then WriteResult(0, false)
    else if answers[0].Took? && answers[0].n > 0 then
      var k := Min(answers[0].n, |queue[0]|);
      var left := [queue[0][k..]] + queue[1..];
      assert left[1..] == queue[1..];
      assert |Flat(left)| == |Flat(queue)| - k;
      var rest := DrainResult(answers[1..], left);
      WriteResult(k + rest.taken, rest.failed)
    else if answers[0].Interrupted? then DrainResult(answers[1..], queue)
    else WriteResult(0, true)
  }

  /** One answer to adb_read. */
  datatype ReadAnswer =
    | Got(data: bytes)
    | NoneYet           // EAGAIN
    | ReadInterrupted   // EINTR
    | AtEnd             // r = 0 or any other error

  /** The data and the end-of-file flag that a read event collects. */
  function ReadResult(answers: seq<ReadAnswer>, room: nat): (r: (bytes, bool))
    ensures |r.0| <= room
  {
    if room == 0 || answers == [] then ([], false)
    else match answers[0]
      case NoneYet => ([], false)
      case ReadInterrupted => ReadResult(answers[1..], room)
      case AtEnd => ([], true)
      case Got(data) =>
        if data == [] then ([], true)
        else
          var x := data[..Min(|data|, room)];
          var rest := ReadResult(answers[1..], room - |x|);
          (x + rest.0, rest.1)
  }

  lemma WriteInSteps(queue: seq<bytes>, k: nat, m: nat)
    requires queue != [] && k <= |queue[0]|
    ensures AfterWriting(queue, k + m) == AfterWriting([queue[0][k..]] + queue[1..], m)
    ensures Flat(queue) == queue[0][..k] + Flat([queue[0][k..]] + queue[1..])
  {
    var left := [queue[0][k..]] + queue[1..];
    assert left[0] == queue[0][k..] && left[1..] == queue[1..];
    assert queue[0] == queue[0][..k] + queue[0][k..];
    if k + m < |queue[0]| {
      assert queue[0][k..][m..] == queue[0][k + m..];
    } else {
      assert AfterWriting(left, m) == AfterWriting(left[1..], m - |left[0]|);
      assert AfterWriting(queue, k + m) == AfterWriting(queue[1..], k + m - |queue[0]|);
    }
  }

  /** Progress through a backlog: `taken` bytes of `all` are written, `left` is
      what remains of it, and `rest` are the answers still to come. */
  ghost predicate Draining(all: seq<bytes>, answers: seq<WriteAnswer>,
                           taken: bytes, left: seq<bytes>, rest: seq<WriteAnswer>) {
    && Flat(all) == taken + Flat(left)
    && (forall m: nat :: AfterWriting(all, |taken| + m) == AfterWriting(left, m))
    && DrainResult(answers, all).taken == |taken| + DrainResult(rest, left).taken
    && DrainResult(answers, all).failed == DrainResult(rest, left).failed
  }

  lemma DrainingStart(all: seq<bytes>, answers: seq<WriteAnswer>)
    ensures Draining(all, answers, [], all, answers)
  {
  }

  lemma TookResult(left: seq<bytes>, rest: seq<WriteAnswer>, k: nat)
    requires left != [] && left[0] != [] && rest != [] && rest[0].Took? && rest[0].n > 0
    requires k == Min(rest[0].n, |left[0]|)
    ensures var r := DrainResult(rest[1..], [left[0][k..]] + left[1..]);
            DrainResult(rest, left) == WriteResult(k + r.taken, r.failed)
  {
  }

  lemma TookSame(all: seq<bytes>, taken: bytes, left: seq<bytes>, k: nat, m: nat)
    requires left != [] && k <= |left[0]|
    requires AfterWriting(all, |taken| + (k + m)) == AfterWriting(left, k + m)
    ensures AfterWriting(all, |taken + left[0][..k]| + m) == AfterWriting([left[0][k..]] + left[1..], m)
  {
    hide AfterWriting, Flat;
    WriteInSteps(left, k, m);
    assert |taken + left[0][..k]| + m == |taken| + (k + m);
  }

  lemma DrainingTook(all: seq<bytes>, answers: seq<WriteAnswer>,
                     taken: bytes, left: seq<bytes>, rest: seq<WriteAnswer>, k: nat)
    requires Draining(all, answers, taken, left, rest)
    requires left != [] && left[0] != [] && rest != [] && rest[0].Took? && rest[0].n > 0
    requires k == Min(rest[0].n, |left[0]|)
    ensures Draining(all, answers, taken + left[0][..k], [left[0][k..]] + left[1..], rest[1..])
  {
    hide DrainResult, AfterWriting, Flat;
    var left' := [left[0][k..]] + left[1..];
    TookResult(left, rest, k);
    forall m: nat
      ensures AfterWriting(all, |taken + left[0][..k]| + m) == AfterWriting(left', m)
    {
      assert AfterWriting(all, |taken| + (k + m)) == AfterWriting(left, k + m);
      TookSame(all, taken, left, k, m);
    }
    WriteInSteps(left, k, 0);
    assert taken + (left[0][..k] + Flat(left')) == taken + left[0][..k] + Flat(left');
  }

  lemma DrainingPop(all: seq<bytes>, answers: seq<WriteAnswer>,
                    taken: bytes, left: seq<bytes>, rest: seq<WriteAnswer>)
    requires Draining(all, answers, taken, left, rest) && left != [] && left[0] == []
    ensures Draining(all, answers, taken, left[1..], rest)
  {
    forall m: nat
      ensures AfterWriting(all, |taken| + m) == AfterWriting(left[1..], m)
    {
      assert AfterWriting(left, m) == AfterWriting(left[1..], m - |left[0]|);
    }
  }

  lemma DrainingInterrupted(all: seq<bytes>, answers: seq<WriteAnswer>,
                            taken: bytes, left: seq<bytes>, rest: seq<WriteAnswer>)
    requires Draining(all, answers, taken, left, rest)
    requires left != [] && left[0] != [] && rest != [] && rest[0].Interrupted?
    ensures Draining(all, answers, taken, left, rest[1..])
  {
  }

  /** The pass ends: nothing is left, the kernel blocks, or the fd is broken. */
  lemma DrainingEnd(all: seq<bytes>, answers: seq<WriteAnswer>,
                    taken: bytes, left: seq<bytes>, rest: seq<WriteAnswer>, failed: bool)
    requires Draining(all, answers, taken, left, rest)
    requires left == [] || left[0] != []
    requires left == [] ==> !failed
    requires left != [] && failed ==> rest != [] && (rest[0].Broken? || rest[0] == Took(0))
    requires left != [] && !failed ==> rest == [] || rest[0].WouldBlock?
    ensures DrainResult(answers, all) == WriteResult(|taken|, failed)
    ensures AfterWriting(all, |taken|) == left && Flat(all)[..|taken|] == taken
  {
    assert AfterWriting(all, |taken| + 0) == AfterWriting(left, 0);
    assert left != [] ==> left[0][0..] == left[0];
  }

  class Engine {
    var sockets: map<nat, Socket>
    var open: seq<nat>
    var closing: seq<nat>
    var nextId: nat
    var out: seq<Message>
    ghost var written: map<nat, bytes>
    ghost var handed: map<nat, bytes>
    ghost var farewells: map<nat, nat>
    ghost var fault: bool

    ghost function State(): Endpoint
      reads this
    {
      Endpoint(sockets, open, closing, nextId, out, written, handed, farewells, fault)
    }

    constructor ()
      ensures State() == EmptyEndpoint
    {
      sockets, open, closing, nextId, out := map[], [], [], 1, [];
      written, handed, farewells, fault := map[], map[], map[], false;
    }

    /** find_local_socket: the first open socket whose id field is `id`. */
    method FindLocalSocket(id: nat) returns (found: bool)
      requires Coherent(State())
      ensures found <==> IsOpen(State(), id)
    {
      found := false;
      var i := 0;
      while i < |open|
        invariant 0 <= i <= |open|
        invariant id !in open[..i]
      {
        if open[i] == id {
          assert id in open;
          return true;
        }
        i := i + 1;
      }
    }

    method SendPacket(m: Message)
      modifies this
      ensures State() == Send(old(State()), m)
    {
      out := out + [m];
    }

    /** Unlinks a node; remove_socket and insert_local_socket work on such lists. */
    static method Unlink(list: seq<nat>, h: nat) returns (r: seq<nat>)
      ensures r == Without(list, h)
    {
      r := [];
      var i := 0;
      while i < |list|
        invariant 0 <= i <= |list|
        invariant r + Without(list[i..], h) == Without(list, h)
      {
        hide Distinct;
        assert list[i..][0] == list[i] && list[i..][1..] == list[i + 1..];
        ghost var rest := Without(list[i + 1..], h);
        if list[i] != h {
          assert r + ([list[i]] + rest) == (r + [list[i]]) + rest;
          r := r + [list[i]];
        }
        i := i + 1;
      }
      assert list[|list|..] == [];
    }

    method DestroySocket(h: nat)
      modifies this
      ensures State() == Destroy(old(State()), h)
    {
      sockets := sockets - {h};
      open := Unlink(open, h);
      closing := Unlink(closing, h);
    }

    /** A local peer is live and is not the socket itself. */
    ghost predicate Mutual(h: nat)
      reads this
    {
      h in sockets &&
      (sockets[h].peer.Local? ==> sockets[h].peer.handle in sockets && sockets[h].peer.handle != h)
    }

    /** The part of local_socket_close_locked that leaves a backlog behind. */
    method Linger(h: nat)
      requires h in sockets && !sockets[h].closing && sockets[h].queue != []
      modifies this
      ensures State() == Retire(old(State()), h)
    {
      sockets := sockets[h := sockets[h].(closing := true, wantRead := false, peer := NoPeer)];
      open := Unlink(open, h);
      closing := closing + [h];
    }

    /** local_socket_close_locked.  A local peer is closed by a call to this very
        procedure, after the peer has been made to forget this socket. */
    method CloseLocked(h: nat)
      requires Mutual(h)
      modifies this
      ensures State() == Close(old(State()), h)
      decreases if sockets[h].peer.NoPeer? then 0 else 1
    {
      match sockets[h].peer {
        case NoPeer =>
        case Remote(id, _) =>
          farewells := farewells[h := Farewells(State(), h) + 1];
          SendPacket(Clse(0, id));
        case Local(k) =>
          sockets := sockets[k := sockets[k].(peer := NoPeer)];
          CloseLocked(k);
      }
      ghost var dropped := DropPeer(old(State()), h);
      assert State() == dropped;
      hide DropPeer;
      if sockets[h].closing || sockets[h].queue == [] {
        DestroySocket(h);
      } else {
        Linger(h);
      }
    }

    /** local_socket_enqueue: 0 if the socket can take more, 1 if it cannot. */
    method EnqueuePacket(h: nat, data: bytes, answers: seq<WriteAnswer>) returns (ret: int)
      requires Mutual(h)
      modifies this
      ensures var (e, ready) := Enqueue(old(State()), h, data, OfferResult(answers, |data|));
              State() == e && ret == if ready then 0 else 1
    {
      hide Close;
      var s := sockets[h];
      if s.queue != [] {
        sockets := sockets[h := s.(queue := s.queue + [data], wantWrite := true)];
        return 1;
      }
      var done, i := 0, 0;
      ghost var r := OfferResult(answers, |data|);
      while done < |data|
        invariant 0 <= done <= |data| && 0 <= i <= |answers|
        invariant r.taken == done + OfferResult(answers[i..], |data| - done).taken
        invariant r.failed == OfferResult(answers[i..], |data| - done).failed
        invariant State() == old(State())
        decreases |answers| - i
      {
        if i == |answers| || answers[i].WouldBlock? {
          break;
        }
        assert answers[i..][1..] == answers[i + 1..];
        if answers[i].Took? && answers[i].n > 0 {
          done := done + Min(answers[i].n, |data| - done);
          i := i + 1;
        } else {
          written := written[h := Log(written, h) + data[..done]];
          CloseLocked(h);
          return 1;
        }
      }
      written := written[h := Log(written, h) + data[..done]];
      if done == |data| {
        return 0;
      }
      sockets := sockets[h := s.(queue := [data[done..]], wantWrite := true)];
      return 1;
    }

    /** The loops of the FDE_WRITE part of local_socket_event_func. */
    method DrainBacklog(h: nat, answers: seq<WriteAnswer>) returns (failed: bool)
      requires h in sockets
      modifies this
      ensures var s := old(State()).sockets[h];
              var r := DrainResult(answers, s.queue);
              && failed == r.failed
              && State() == Update(Written(old(State()), h, Flat(s.queue)[..r.taken]), h,
                                   s.(queue := AfterWriting(s.queue, r.taken)))
    {
      hide Draining;
      var all := sockets[h].queue;
      var q, taken, rest := all, [], answers;
      DrainingStart(all, answers);
      failed := false;
      label passes:
      while q != []
        invariant !failed && Draining(all, answers, taken, q, rest)
        invariant State() == old(State())
        decreases |rest|, |q|
      {
        var n := |q|;
        while q[0] != []
          invariant |q| == n && !failed && Draining(all, answers, taken, q, rest)
          invariant State() == old(State())
          decreases |rest|
        {
          if rest == [] || rest[0].WouldBlock? {
            break passes;
          } else if rest[0].Took? && rest[0].n > 0 {
            var k := Min(rest[0].n, |q[0]|);
            DrainingTook(all, answers, taken, q, rest, k);
            taken := taken + q[0][..k];
            q := [q[0][k..]] + q[1..];
          } else if rest[0].Interrupted? {
            DrainingInterrupted(all, answers, taken, q, rest);
          } else {
            failed := true;
            break passes;
          }
          rest := rest[1..];
        }
        DrainingPop(all, answers, taken, q, rest);
        q := q[1..];
      }
      DrainingEnd(all, answers, taken, q, rest, failed);
      written := written[h := Log(written, h) + taken];
      sockets := sockets[h := sockets[h].(queue := q)];
    }

    /** The FDE_WRITE part of local_socket_event_func.  The result is true if the
        function goes on to the FDE_READ part. */
    method OnWritable(h: nat, answers: seq<WriteAnswer>) returns (goesOn: bool)
      requires Mutual(h)
      modifies this
      ensures State() == WriteEvent(old(State()), h, DrainResult(answers, old(State()).sockets[h].queue))
      ensures goesOn <==> !old(sockets[h].closing)
                          && DrainResult(answers, old(sockets[h].queue)).taken == |Flat(old(sockets[h].queue))|
    {
      ghost var r := DrainResult(answers, sockets[h].queue);
      AfterWritingKeepsBytes(sockets[h].queue, r.taken);
      var failed := DrainBacklog(h, answers);
      hide AfterWriting, DrainResult, Flat;
      if sockets[h].queue != [] {
        if failed {
          CloseLocked(h);
        }
        return false;
      }
      if sockets[h].closing {
        CloseLocked(h);
        return false;
      }
      sockets := sockets[h := sockets[h].(wantWrite := false)];
      match sockets[h].peer {
        case NoPeer => fault := true;
        case Remote(id, _) => SendPacket(Okay(h, id));
        case Local(k) => sockets := sockets[k := sockets[k].(wantRead := true)];
      }
      return true;
    }

    /** The loop around adb_read. */
    method ReadSome(answers: seq<ReadAnswer>) returns (data: bytes, eof: bool)
      ensures (data, eof) == ReadResult(answers, MAX_PAYLOAD)
    {
      data, eof := [], false;
      var rest := answers;
      assert data + ReadResult(rest, MAX_PAYLOAD).0 == ReadResult(rest, MAX_PAYLOAD).0;
      while |data| < MAX_PAYLOAD && rest != []
        invariant |data| <= MAX_PAYLOAD && !eof
        invariant ReadResult(answers, MAX_PAYLOAD)
               == (data + ReadResult(rest, MAX_PAYLOAD - |data|).0, ReadResult(rest, MAX_PAYLOAD - |data|).1)
        decreases |rest|
      {
        match rest[0] {
          case NoneYet => break;
          case ReadInterrupted =>
          case AtEnd =>
            eof := true;
            break;
          case Got(got) =>
            if got == [] {
              eof := true;
              break;
            }
            var x := got[..Min(|got|, MAX_PAYLOAD - |data|)];
            ghost var tail := ReadResult(rest[1..], MAX_PAYLOAD - |data| - |x|).0;
            assert data + (x + tail) == (data + x) + tail;
            data := data + x;
        }
        rest := rest[1..];
      }
      assert data + [] == data;
    }

    /** Hands what was read to the peer's enqueue. */
    method PassOnData(h: nat, data: bytes, writes: seq<WriteAnswer>) returns (ready: bool)
      requires Coherent(State()) && h in sockets && data != [] && sockets[h].peer != NoPeer
      modifies this
      ensures PassOn(old(State()), h, data, OfferResult(writes, |data|)) == (State(), ready)
    {
      ready := false;
      assert SocketCoherent(State(), h);
      match sockets[h].peer {
        case Remote(id, _) =>
          SendPacket(Wrte(h, id, data));
          handed := handed[h := Log(handed, h) + data];
        case Local(k) =>
          handed := handed[h := Log(handed, h) + data];
          assert SocketCoherent(old(State()), k);
          var ret := EnqueuePacket(k, data, writes);
          ready := ret == 0;
      }
    }

    /** The FDE_READ part of local_socket_event_func. */
    method OnReadable(h: nat, input: seq<ReadAnswer>, force: bool, writes: seq<WriteAnswer>)
      requires Coherent(State()) && h in sockets
      modifies this
      ensures var (data, eof) := ReadResult(input, MAX_PAYLOAD);
              State() == ReadEvent(old(State()), h, data, eof, force, OfferResult(writes, |data|))
    {
      hide PassOn, OfferResult, ReadResult;
      var data, eof := ReadSome(input);
      var ready := false;
      if data != [] && sockets[h].peer != NoPeer {
        PassOnCoherent(State(), h, data, OfferResult(writes, |data|));
        ready := PassOnData(h, data, writes);
        StopReadingCoherent(State(), h);
        if !ready && h in sockets {
          sockets := sockets[h := sockets[h].(wantRead := false)];
        }
      }
      if (eof || (force && ready)) && h in sockets {
        assert SocketCoherent(State(), h);
        CloseLocked(h);
      }
    }

    /** local_socket_event_func for a callback that reports writability, readability
        or both: the write part comes first and may end the callback. */
    method EventFunc(h: nat, writable: bool, readable: bool, answers: seq<WriteAnswer>,
                     input: seq<ReadAnswer>, force: bool, writes: seq<WriteAnswer>)
      requires Coherent(State()) && h in sockets && (writable ==> sockets[h].wantWrite)
      modifies this
      ensures var r := DrainResult(answers, old(sockets[h].queue));
              var e := if writable then WriteEvent(old(State()), h, r) else old(State());
              var goesOn := !writable || (!old(sockets[h].closing) && r.taken == |Flat(old(sockets[h].queue))|);
              var (data, eof) := ReadResult(input, MAX_PAYLOAD);
              if readable && goesOn
              then h in e.sockets && State() == ReadEvent(e, h, data, eof, force, OfferResult(writes, |data|))
              else State() == e
    {
      hide DrainResult, OfferResult, ReadResult, ReadEvent, Flat;
      var goesOn := true;
      assert SocketCoherent(State(), h);
      if writable {
        WriteEventCoherent(State(), h, DrainResult(answers, sockets[h].queue));
        AfterWritingKeepsBytes(sockets[h].queue, DrainResult(answers, sockets[h].queue).taken);
        goesOn := OnWritable(h, answers);
      }
      if readable && goesOn {
        OnReadable(h, input, force, writes);
      }
    }

    // ------------------------------------------------------- new sockets

    /** install_local_socket for a socket that has just been allocated. */
    method InstallSocket(peer: Peer, wantRead: bool, transport: nat) returns (id: nat)
      modifies this
      ensures State() == Install(old(State()), peer, wantRead, transport) && id == old(nextId)
    {
      id := nextId;
      sockets := sockets[id := Socket(peer, [], wantRead, false, false, transport)];
      open := open + [id];
      nextId := nextId + 1;
    }

    method ConnectToRemote(destination: bytes, transport: nat)
      modifies this
      ensures State() == Connect(old(State()), destination, transport)
    {
      var id := InstallSocket(NoPeer, false, transport);
      SendPacket(Open(id, destination));
    }

    /** A client socket and a service socket of this endpoint become peers. */
    method BindLocal()
      modifies this
      ensures State() == Bind(old(State()))
    {
      var a := InstallSocket(Local(nextId + 1), true, 0);
      var b := InstallSocket(Local(a), true, 0);
    }

    /** handle_packet for the four stream packets of an online transport. */
    method Handle(m: Message, transport: nat, accept: bool, answers: seq<WriteAnswer>)
      requires Coherent(State())
      modifies this
      ensures State() == HandlePacket(old(State()), m, transport, accept,
                                      OfferResult(answers, if m.Wrte? then |m.data| else 0))
    {
      hide OfferResult, Close, Enqueue;
      match m {
        case Open(local, _) =>
          if accept {
            var id := InstallSocket(Remote(local, transport), true, 0);
            SendPacket(Okay(id, local));
          } else {
            SendPacket(Clse(0, local));
          }
        case Okay(local, remote) =>
          var found := FindLocalSocket(remote);
          if found {
            if sockets[remote].peer.NoPeer? {
              sockets := sockets[remote := sockets[remote].(peer := Remote(local, transport))];
            }
            sockets := sockets[remote := sockets[remote].(wantRead := true)];
          }
        case Clse(_, remote) =>
          var found := FindLocalSocket(remote);
          if found {
            assert SocketCoherent(State(), remote);
            CloseLocked(remote);
          }
        case Wrte(local, remote, data) =>
          var found := FindLocalSocket(remote);
          if found {
            assert SocketCoherent(State(), remote);
            var ret := EnqueuePacket(remote, data, answers);
            if ret == 0 {
              SendPacket(Okay(remote, local));
            }
          }
      }
    }

    // ------------------------------------------------- close_all_sockets

    /** close_all_sockets: the scan starts again after every socket it closes. */
    method CloseAllSockets(t: nat)
      requires Coherent(State())
      modifies this
      ensures State() == CloseAll(old(State()), t)
      ensures Coherent(State()) && ClosedExactly(old(State()), State(), t)
    {
      hide Coherent, Close, BoundTo, ClosedExactly;
      CloseAllClosesExactly(State(), t);
      ghost var end := CloseAll(State(), t);
      var i := 0;
      while i < |open|
        invariant 0 <= i <= |open|
        invariant Coherent(State()) && CloseAll(State(), t) == end
        invariant forall j :: 0 <= j < i ==> !BoundTo(State(), open[j], t)
        decreases |open|, |open| - i
      {
        var bound := IsBound(open[i], t);
        if bound {
          ScanFinds(State(), t, i);
          CloseStep(State(), t, i);
          CloseLocked(open[i]);
          i := 0;
        } else {
          i := i + 1;
        }
      }
      ScanFinds(State(), t, i);
    }

    method IsBound(h: nat, t: nat) returns (bound: bool)
      requires Coherent(State()) && h in open
      ensures bound == BoundTo(State(), h, t)
    {
      assert IsOpen(State(), h) && SocketCoherent(State(), h);
      var s := sockets[h];
      bound := s.transport == t;
      match s.peer {
        case NoPeer =>
        case Remote(_, transport) => bound := bound || transport == t;
        case Local(k) => bound := bound || sockets[k].transport == t;
      }
    }
  }

  /** The scan of close_all_sockets stops at the first bound socket. */
  lemma ScanFinds(e: Endpoint, t: nat, i: nat)
    requires i <= |e.open| && (forall j :: 0 <= j < i ==> !BoundTo(e, e.open[j], t))
    requires i < |e.open| ==> BoundTo(e, e.open[i], t)
    ensures FirstBound(e, e.open, t) == i
  {
    hide BoundTo;
  }

  lemma CloseStep(e: Endpoint, t: nat, i: nat)
    requires Coherent(e) && i < |e.open| && FirstBound(e, e.open, t) == i
    ensures IsOpen(e, e.open[i])
    ensures SocketCoherent(e, e.open[i])
    ensures Coherent(Close(e, e.open[i]))
    ensures CloseAll(Close(e, e.open[i]), t) == CloseAll(e, t)
    ensures |Close(e, e.open[i]).open| < |e.open|
  {
    assert IsOpen(e, e.open[i]) && SocketCoherent(e, e.open[i]);
    hide Coherent, Close, SocketCoherent;
    CloseCoherent(e, e.open[i]);
    CloseFrame(e, e.open[i]);
  }
}
