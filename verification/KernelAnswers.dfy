/** What the kernel's answers to reads and writes come to, told by how far the loops
    get in them. */
module KernelAnswers {
  import opened Bytes
  import opened Sockets
  import opened SocketEngine

  // ----------------------------------------------------------- reading

  /** The bytes of the chunks among some answers. */
  function Chunks(answers: seq<ReadAnswer>): bytes {
    if answers == [] then []
    else (if answers[0].Got? then answers[0].data else []) + Chunks(answers[1..])
  }

  /** An answer after which the loop reads on. */
  predicate ReadsOn(a: ReadAnswer) {
    a.ReadInterrupted? || (a.Got? && a.data != [])
  }

  /** The end of the file or an error. */
  predicate IsEnd(a: ReadAnswer) {
    a.AtEnd? || a == Got([])
  }

  /** The loop goes through the first `n` answers, and not further: the room is used
      up, the answers are, or the next one is EAGAIN or the end. */
  ghost predicate ReadsUntil(answers: seq<ReadAnswer>, room: nat, n: nat) {
    && n <= |answers|
    && (forall i :: 0 <= i < n ==> ReadsOn(answers[i]) && |Chunks(answers[..i])| < room)
    && (n == |answers| || |Chunks(answers[..n])| >= room || answers[n].NoneYet? || IsEnd(answers[n]))
  }

  /** A read event collects the chunks up to there, as far as there is room, and sees
      the end of the file exactly if that is what stopped it. */
  ghost predicate ReadComesTo(answers: seq<ReadAnswer>, room: nat, n: nat, data: bytes, eof: bool) {
    && ReadsUntil(answers, room, n)
    && data == Head(Chunks(answers[..n]), room)
    && (eof <==> n < |answers| && |Chunks(answers[..n])| < room && IsEnd(answers[n]))
  }

  function Head(x: bytes, n: nat): bytes {
    if |x| <= n then x else x[..n]
  }

  lemma ChunksStep(answers: seq<ReadAnswer>, i: nat)
    requires i < |answers|
    ensures Chunks(answers[..i + 1])
         == (if answers[0].Got? then answers[0].data else []) + Chunks(answers[1..][..i])
    ensures Chunks(answers[..0]) == []
  {
    assert answers[..i + 1][0] == answers[0] && answers[..i + 1][1..] == answers[1..][..i];
  }

  lemma HeadStep(x: bytes, y: bytes, room: nat)
    ensures |x| <= room ==> Head(x + y, room) == x + Head(y, room - |x|)
    ensures |x| > room ==> Head(x + y, room) == x[..room]
  {
  }

  /** One answer more in front. */
  lemma ReadsOneMore(answers: seq<ReadAnswer>, room: nat, n: nat, data: bytes, eof: bool)
    requires answers != [] && ReadsOn(answers[0]) && room > 0
    requires var x := if answers[0].Got? then answers[0].data else [];
             |x| < room && ReadComesTo(answers[1..], room - |x|, n, data, eof)
    ensures var x := if answers[0].Got? then answers[0].data else [];
            ReadComesTo(answers, room, n + 1, x + data, eof)
  {
    var x := if answers[0].Got? then answers[0].data else [];
    var rest := answers[1..];
    hide IsEnd, Head, Chunks;
    forall i | 0 <= i < n + 1
      ensures ReadsOn(answers[i]) && |Chunks(answers[..i])| < room
    {
      if i > 0 {
        ChunksStep(answers, i - 1);
        assert answers[i] == rest[i - 1];
      } else {
        ChunksStep(answers, 0);
      }
    }
    ChunksStep(answers, n);
    assert n + 1 < |answers| ==> answers[n + 1] == rest[n];
    HeadStep(x, Chunks(rest[..n]), room);
  }

  lemma {:induction false} ReadStopsExactly(answers: seq<ReadAnswer>, room: nat)
    ensures exists n: nat :: ReadComesTo(answers, room, n, ReadResult(answers, room).0, ReadResult(answers, room).1)
    decreases |answers|
  {
    var r := ReadResult(answers, room);
    if room == 0 || answers == [] || !ReadsOn(answers[0]) {
      assert answers[..0] == [];
      assert ReadComesTo(answers, room, 0, r.0, r.1);
    } else {
      var x := if answers[0].Got? then answers[0].data else [];
      if |x| >= room {
        FillsRoom(answers, room);
        assert ReadComesTo(answers, room, 1, r.0, r.1);
      } else {
        ReadStopsExactly(answers[1..], room - |x|);
        var s := ReadResult(answers[1..], room - |x|);
        var n: nat :| ReadComesTo(answers[1..], room - |x|, n, s.0, s.1);
        assert r == (x + s.0, s.1) by { assert x[..|x|] == x; assert [] + s.0 == s.0; }
        hide ReadComesTo;
        ReadsOneMore(answers, room, n, s.0, s.1);
      }
    }
  }

  lemma FillsRoom(answers: seq<ReadAnswer>, room: nat)
    requires answers != [] && answers[0].Got? && |answers[0].data| >= room > 0
    ensures ReadComesTo(answers, room, 1, ReadResult(answers, room).0, ReadResult(answers, room).1)
  {
    var x := answers[0].data;
    ChunksStep(answers, 0);
    assert answers[1..][..0] == [] && x + [] == x;
    assert ReadResult(answers, room).0 == x[..room] + [] == x[..room];
  }

  // ----------------------------------------------------------- writing

  function Total(answers: seq<WriteAnswer>): nat {
    if answers == [] then 0 else (if answers[0].Took? then answers[0].n else 0) + Total(answers[1..])
  }

  predicate TookSome(a: WriteAnswer) {
    a.Took? && a.n > 0
  }

  /** local_socket_enqueue offers a packet until it is written, the kernel blocks, or
      anything else comes back, which is a failure, an interruption included. */
  ghost predicate OfferComesTo(answers: seq<WriteAnswer>, len: nat, n: nat, r: WriteResult) {
    && n <= |answers|
    && (forall i :: 0 <= i < n ==> TookSome(answers[i]) && Total(answers[..i]) < len)
    && (n == |answers| || Total(answers[..n]) >= len || !TookSome(answers[n]))
    && r.taken == Min(Total(answers[..n]), len)
    && (r.failed <==> n < |answers| && Total(answers[..n]) < len && !answers[n].WouldBlock?)
  }

  lemma TotalStep(answers: seq<WriteAnswer>, i: nat)
    requires i < |answers|
    ensures Total(answers[..i + 1]) == (if answers[0].Took? then answers[0].n else 0) + Total(answers[1..][..i])
    ensures Total(answers[..0]) == 0
  {
    assert answers[..i + 1][0] == answers[0] && answers[..i + 1][1..] == answers[1..][..i];
  }

  lemma OfferOneMore(answers: seq<WriteAnswer>, len: nat, n: nat, r: WriteResult)
    requires answers != [] && TookSome(answers[0]) && answers[0].n < len
    requires OfferComesTo(answers[1..], len - answers[0].n, n, r)
    ensures OfferComesTo(answers, len, n + 1, WriteResult(answers[0].n + r.taken, r.failed))
  {
    var rest := answers[1..];
    hide Total;
    forall i | 0 <= i < n + 1
      ensures TookSome(answers[i]) && Total(answers[..i]) < len
    {
      if i > 0 {
        TotalStep(answers, i - 1);
        assert answers[i] == rest[i - 1];
      } else {
        TotalStep(answers, 0);
      }
    }
    TotalStep(answers, n);
    assert n + 1 < |answers| ==> answers[n + 1] == rest[n];
  }

  lemma {:induction false} OfferStopsExactly(answers: seq<WriteAnswer>, len: nat)
    ensures exists n: nat :: OfferComesTo(answers, len, n, OfferResult(answers, len))
    decreases |answers|
  {
    var r := OfferResult(answers, len);
    assert answers[..0] == [];
    if len == 0 || answers == [] || !TookSome(answers[0]) {
      assert OfferComesTo(answers, len, 0, r);
    } else if answers[0].n >= len {
      TotalStep(answers, 0);
      assert answers[1..][..0] == [];
      assert OfferComesTo(answers, len, 1, r);
    } else {
      OfferStopsExactly(answers[1..], len - answers[0].n);
      var s := OfferResult(answers[1..], len - answers[0].n);
      var n: nat :| OfferComesTo(answers[1..], len - answers[0].n, n, s);
      hide OfferComesTo;
      OfferOneMore(answers, len, n, s);
    }
  }

  // A backlog: every write is offered what is left of one packet.

  /** The end of the packet that the byte at `pos` belongs to. */
  function PacketEnd(queue: seq<bytes>, pos: nat): nat
    requires pos < |Flat(queue)|
  {
    if pos < |queue[0]| then |queue[0]| else |queue[0]| + PacketEnd(queue[1..], pos - |queue[0]|)
  }

  /** The positions that the writes of a backlog go through, one for every answer. */
  ghost predicate Positions(answers: seq<WriteAnswer>, queue: seq<bytes>, ps: seq<nat>) {
    && 0 < |ps| <= |answers| + 1 && ps[0] == 0
    && (forall i :: 0 <= i < |ps| - 1 ==> ps[i] < |Flat(queue)| && Moves(answers[i], queue, ps[i], ps[i + 1]))
  }

  /** An interruption moves nothing, a write not beyond the packet. */
  ghost predicate Moves(a: WriteAnswer, queue: seq<bytes>, pos: nat, pos': nat)
    requires pos < |Flat(queue)|
  {
    (a.Interrupted? && pos' == pos) || (TookSome(a) && pos' == Min(pos + a.n, PacketEnd(queue, pos)))
  }

  /** The writes end when all is written, the kernel blocks, or the fd is broken. */
  ghost predicate DrainComesTo(answers: seq<WriteAnswer>, queue: seq<bytes>, ps: seq<nat>, r: WriteResult) {
    && Positions(answers, queue, ps)
    && r.taken == ps[|ps| - 1] <= |Flat(queue)|
    && var n := |ps| - 1;
       && (r.taken == |Flat(queue)| || n == |answers| || !(TookSome(answers[n]) || answers[n].Interrupted?))
       && (r.failed <==> r.taken < |Flat(queue)| && n < |answers| && !answers[n].WouldBlock?)
  }

  function Shifted(ps: seq<nat>, k: nat): (r: seq<nat>)
    ensures |r| == |ps| && forall i :: 0 <= i < |ps| ==> r[i] == ps[i] + k
  {
    seq(|ps|, i requires 0 <= i < |ps| => ps[i] + k)
  }

  /** The queue once the first `k` bytes of its first packet are written. */
  lemma EndShifts(queue: seq<bytes>, k: nat, pos: nat)
    requires queue != [] && k <= |queue[0]|
    ensures var left := [queue[0][k..]] + queue[1..];
            && |Flat(queue)| == k + |Flat(left)|
            && (pos < |Flat(left)| ==> PacketEnd(queue, k + pos) == k + PacketEnd(left, pos))
  {
    var left := [queue[0][k..]] + queue[1..];
    assert left[0] == queue[0][k..] && left[1..] == queue[1..];
  }

  lemma EmptyPacket(queue: seq<bytes>, pos: nat)
    requires queue != [] && queue[0] == []
    ensures Flat(queue) == Flat(queue[1..])
    ensures pos < |Flat(queue)| ==> PacketEnd(queue, pos) == PacketEnd(queue[1..], pos)
  {
  }

  lemma DrainEmptyPacket(answers: seq<WriteAnswer>, queue: seq<bytes>, ps: seq<nat>, r: WriteResult)
    requires queue != [] && queue[0] == [] && DrainComesTo(answers, queue[1..], ps, r)
    ensures DrainComesTo(answers, queue, ps, r)
  {
    hide PacketEnd, Flat;
    EmptyPacket(queue, 0);
    forall i | 0 <= i < |ps| - 1
      ensures ps[i] < |Flat(queue)| && Moves(answers[i], queue, ps[i], ps[i + 1])
    {
      EmptyPacket(queue, ps[i]);
    }
  }

  /** One answer more in front, which takes `k` bytes of the first packet or is an
      interruption. */
  lemma DrainOneMore(answers: seq<WriteAnswer>, queue: seq<bytes>, k: nat, ps: seq<nat>, r: WriteResult)
    requires answers != [] && queue != [] && queue[0] != [] && k <= |queue[0]|
    requires (answers[0].Interrupted? && k == 0) || (TookSome(answers[0]) && k == Min(answers[0].n, |queue[0]|))
    requires DrainComesTo(answers[1..], [queue[0][k..]] + queue[1..], ps, r)
    ensures DrainComesTo(answers, queue, [0] + Shifted(ps, k), WriteResult(k + r.taken, r.failed))
  {
    hide Flat, PacketEnd, Moves;
    var rest, left, all := answers[1..], [queue[0][k..]] + queue[1..], [0] + Shifted(ps, k);
    EndShifts(queue, k, 0);
    FirstMove(answers[0], queue, k);
    assert all[1] == ps[0] + k == k;
    forall i | 0 <= i < |all| - 1
      ensures all[i] < |Flat(queue)| && Moves(answers[i], queue, all[i], all[i + 1])
    {
      if i > 0 {
        assert answers[i] == rest[i - 1] && all[i] == ps[i - 1] + k && all[i + 1] == ps[i] + k;
        MovesShift(rest[i - 1], queue, k, ps[i - 1], ps[i]);
      }
    }
    assert |ps| - 1 < |rest| ==> answers[|all| - 1] == rest[|ps| - 1];
  }

  lemma MovesShift(a: WriteAnswer, queue: seq<bytes>, k: nat, pos: nat, pos': nat)
    requires queue != [] && k <= |queue[0]|
    requires var left := [queue[0][k..]] + queue[1..]; pos < |Flat(left)| && Moves(a, left, pos, pos')
    ensures k + pos < |Flat(queue)| && Moves(a, queue, k + pos, k + pos')
  {
    hide Flat, PacketEnd;
    EndShifts(queue, k, pos);
  }

  lemma FirstMove(a: WriteAnswer, queue: seq<bytes>, k: nat)
    requires queue != [] && queue[0] != []
    requires (a.Interrupted? && k == 0) || (TookSome(a) && k == Min(a.n, |queue[0]|))
    ensures 0 < |Flat(queue)| && Moves(a, queue, 0, k)
  {
    FirstPacketEnd(queue);
    hide Flat, PacketEnd;
  }

  lemma FirstPacketEnd(queue: seq<bytes>)
    requires queue != [] && queue[0] != []
    ensures 0 < |Flat(queue)| && PacketEnd(queue, 0) == |queue[0]|
  {
  }

  /** A write event works through the backlog packet by packet; only an interruption
      is tried again, and the bytes taken are those up to where it stops. */
  lemma {:induction false} DrainStopsExactly(answers: seq<WriteAnswer>, queue: seq<bytes>)
    ensures exists ps: seq<nat> :: DrainComesTo(answers, queue, ps, DrainResult(answers, queue))
    decreases |answers|, |queue|
  {
    var r := DrainResult(answers, queue);
    if queue == [] {
      assert DrainComesTo(answers, queue, [0], r);
    } else if queue[0] == [] {
      DrainStopsExactly(answers, queue[1..]);
      var ps: seq<nat> :| DrainComesTo(answers, queue[1..], ps, DrainResult(answers, queue[1..]));
      hide DrainComesTo;
      DrainEmptyPacket(answers, queue, ps, r);
    } else if answers == [] || !(TookSome(answers[0]) || answers[0].Interrupted?) {
      FirstPacketEnd(queue);
      assert DrainComesTo(answers, queue, [0], r);
    } else {
      var k := if answers[0].Interrupted? then 0 else Min(answers[0].n, |queue[0]|);
      var left := [queue[0][k..]] + queue[1..];
      assert k == 0 ==> left == queue;
      DrainStopsExactly(answers[1..], left);
      var s := DrainResult(answers[1..], left);
      var ps: seq<nat> :| DrainComesTo(answers[1..], left, ps, s);
      assert r == WriteResult(k + s.taken, s.failed);
      hide DrainComesTo, DrainResult;
      DrainOneMore(answers, queue, k, ps, s);
    }
  }
}
