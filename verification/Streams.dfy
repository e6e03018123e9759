/** One stream: the two linked halves and the packets in flight between them.

    Everything here speaks of two socket values and their inboxes only; the
    Multiplexer module shows that a step of an endpoint touches one stream. */
module Streams {
  import opened Bytes
  import opened Packets
  import opened Sockets

  /** One half of a stream: a socket, its histories, and the packets addressed
      to it.  A socket that is gone has no queue and no peer. */
  datatype Half = Half(
    open: bool,
    peer: Peer,
    queue: seq<bytes>,
    wantRead: bool,
    written: bytes,
    handed: bytes,
    farewells: nat,
    inbox: seq<Message>)

  ghost predicate NoClse(ms: seq<Message>) {
    forall i :: 0 <= i < |ms| ==> !ms[i].Clse?
  }

  /** The inbox holds as many CLSE packets as the sender has said farewells,
      and nothing follows a farewell. */
  ghost predicate EndsWithFarewell(ms: seq<Message>, farewells: nat) {
    if farewells == 0 then NoClse(ms)
    else farewells == 1 && ms != [] && ms[|ms| - 1].Clse? && NoClse(ms[..|ms| - 1])
  }

  function Tokens(x: Half, y: Half): nat {
    (if x.wantRead then 1 else 0) + WrteCount(y.inbox) + |y.queue| + OkayCount(x.inbox)
  }

  /** What holds of the direction from half `x`, socket `p`, to half `y`,
      socket `q`. */
  ghost predicate OneWay(p: nat, x: Half, q: nat, y: Half) {
    && (x.open ==> Attached(p, x, q))
    && (x.open ==> x.farewells == 0)
    && x.farewells <= 1
    && (forall i :: 0 <= i < |y.inbox| ==> y.inbox[i].Clse? || y.inbox[i].local == p)
    && (y.open ==> EndsWithFarewell(y.inbox, x.farewells))
    && (y.open ==> y.written + Flat(y.queue) + Payload(y.inbox) == x.handed)
    && (!y.open ==> y.written + Flat(y.queue) <= x.handed)
    && (x.open && y.open ==> Tokens(x, y) == 1)
    && (y.open ==> WrteCount(y.inbox) + |y.queue| <= 1)
    && (!WasBound(x) ==> y.inbox == [])
  }

  /** The half is bound to its remote socket, or it was and has said farewell. */
  predicate WasBound(x: Half) {
    x.farewells > 0 || (x.open && x.peer.Remote?)
  }

  /** An open half is bound to the other one, or it still waits for the OKAY
      that will bind it, and that OKAY is the first packet it will see. */
  ghost predicate Attached(p: nat, x: Half, q: nat) {
    || (x.peer.Remote? && x.peer.id == q)
    || (x.peer.NoPeer? && !x.wantRead && x.queue == [] && x.inbox != [] && x.inbox[0] == Okay(q, p))
  }

  ghost predicate Stream(p: nat, x: Half, q: nat, y: Half) {
    OneWay(p, x, q, y) && OneWay(q, y, p, x)
  }

  /** Half `y` after a packet has been added to its inbox. */
  function Receive(y: Half, m: Message): Half {
    y.(inbox := y.inbox + [m])
  }

  function Discard(x: Half): Half {
    x.(open := false, peer := NoPeer, wantRead := false, queue := [])
  }

  /** Half `x` after local_socket_close. */
  function Leave(x: Half): Half {
    x.(open := false, peer := NoPeer, wantRead := false,
       farewells := x.farewells + if x.peer.Remote? then 1 else 0)
  }

  function Told(x: Half, y: Half): Half {
    match x.peer
    case Remote(id, _) => Receive(y, Clse(0, id))
    case _ => y
  }

  lemma FarewellAdded(ms: seq<Message>, m: Message)
    requires m.Clse? && EndsWithFarewell(ms, 0)
    ensures EndsWithFarewell(ms + [m], 1)
  {
    var all := ms + [m];
    assert all[..|all| - 1] == ms && all[|all| - 1] == m;
  }

  /** What a close does to the direction away from the half that closes. */
  lemma LeaveAway(p: nat, x: Half, q: nat, y: Half)
    requires OneWay(p, x, q, y) && x.open
    ensures OneWay(p, Leave(x), q, Told(x, y))
  {
    hide EndsWithFarewell, Flat, Payload, WrteCount;
    if x.peer.Remote? {
      var m := Clse(0, q);
      CountsAppend(y.inbox, m);
      if y.open { FarewellAdded(y.inbox, m); }
      assert forall i :: 0 <= i < |y.inbox| ==> (y.inbox + [m])[i] == y.inbox[i];
      assert (y.written + Flat(y.queue)) + (Payload(y.inbox) + []) == (y.written + Flat(y.queue)) + Payload(y.inbox);
    }
  }

  lemma LeaveTowards(p: nat, x: Half, q: nat, y: Half)
    requires OneWay(q, y, p, x) && x.open
    ensures OneWay(q, Told(x, y), p, Leave(x))
  {
    hide EndsWithFarewell, Flat, Payload, WrteCount, OkayCount;
    var kept, rest := x.written + Flat(x.queue), Payload(x.inbox);
    assert (kept + rest)[..|kept|] == kept;
  }

  lemma LeaveStream(p: nat, x: Half, q: nat, y: Half)
    requires Stream(p, x, q, y) && x.open
    ensures Stream(p, Leave(x), q, Told(x, y))
  {
    hide OneWay;
    LeaveAway(p, x, q, y);
    LeaveTowards(p, x, q, y);
  }

  lemma DiscardStream(p: nat, x: Half, q: nat, y: Half)
    requires Stream(p, x, q, y) && !x.open
    ensures Stream(p, Discard(x), q, y)
  {
  }

  /** Data read from the fd goes out as one WRTE and uses up the token. */
  lemma SendStream(p: nat, x: Half, q: nat, y: Half, data: bytes)
    requires Stream(p, x, q, y) && x.open && x.wantRead
    ensures Stream(p, x.(wantRead := false, handed := x.handed + data),
                   q, Receive(y, Wrte(p, q, data)))
  {
    CountsAppend(y.inbox, Wrte(p, q, data));
    var y' := Receive(y, Wrte(p, q, data));
    assert y.written + Flat(y.queue) + Payload(y'.inbox)
        == (y.written + Flat(y.queue) + Payload(y.inbox)) + data;
    assert y'.open ==> NoClse(y'.inbox);
  }

  /** A write event that leaves a backlog. */
  lemma WriteSomeStream(p: nat, x: Half, q: nat, y: Half, n: nat)
    requires Stream(p, x, q, y) && n < |Flat(x.queue)|
    ensures Stream(p, x.(queue := AfterWriting(x.queue, n), written := x.written + Flat(x.queue)[..n]),
                   q, y)
  {
    AfterWritingKeepsBytes(x.queue, n);
    var rest := AfterWriting(x.queue, n);
    assert x.written + Flat(x.queue) == (x.written + Flat(x.queue)[..n]) + Flat(rest);
    assert x.open ==> |rest| == |x.queue|;
  }

  /** A write event that empties the backlog of an open socket: the packet is
      acknowledged. */
  lemma WriteAllStream(p: nat, x: Half, q: nat, y: Half)
    requires Stream(p, x, q, y) && x.open && x.queue != []
    ensures Stream(p, x.(queue := [], written := x.written + Flat(x.queue)),
                   q, Receive(y, Okay(p, q)))
  {
    CountsAppend(y.inbox, Okay(p, q));
    var y' := Receive(y, Okay(p, q));
    assert x.written + Flat(x.queue) + Flat([]) == x.written + Flat(x.queue);
    assert y'.open ==> NoClse(y'.inbox);
  }

  lemma PopFarewell(ms: seq<Message>, farewells: nat)
    requires EndsWithFarewell(ms, farewells) && ms != [] && !ms[0].Clse?
    ensures EndsWithFarewell(ms[1..], farewells)
  {
    if farewells != 0 {
      assert ms[1..][..|ms[1..]| - 1] == ms[..|ms| - 1][1..];
    }
  }

  /** An OKAY binds a half that was waiting for it and hands it the token. */
  lemma OkayStream(p: nat, x: Half, q: nat, y: Half, transport: nat)
    requires Stream(p, x, q, y) && x.open
    requires x.inbox != [] && x.inbox[0] == Okay(q, p)
    ensures Stream(p, x.(inbox := x.inbox[1..], wantRead := true,
                         peer := if x.peer.NoPeer? then Remote(q, transport) else x.peer),
                   q, y)
  {
    PopFarewell(x.inbox, y.farewells);
  }

  /** A packet for a socket that is no longer open is dropped. */
  lemma DropStream(p: nat, x: Half, q: nat, y: Half)
    requires Stream(p, x, q, y) && !x.open && x.inbox != []
    ensures Stream(p, x.(inbox := x.inbox[1..]), q, y)
  {
  }

  /** A WRTE finds a bound socket with an empty queue. */
  lemma WrteFindsRoom(p: nat, x: Half, q: nat, y: Half, data: bytes)
    requires Stream(p, x, q, y) && x.open
    requires x.inbox != [] && x.inbox[0] == Wrte(q, p, data)
    ensures x.queue == [] && x.peer.Remote? && x.peer.id == q
    ensures EndsWithFarewell(x.inbox[1..], y.farewells)
    ensures x.written + data + Payload(x.inbox[1..]) == y.handed
    ensures WrteCount(x.inbox[1..]) == 0
  {
    PopFarewell(x.inbox, y.farewells);
    assert WrteCount(x.inbox) == 1 + WrteCount(x.inbox[1..]);
    assert x.queue == [];
    assert x.written + Flat(x.queue) + Payload(x.inbox)
        == x.written + data + Payload(x.inbox[1..]);
  }

  /** A WRTE that the fd takes completely is acknowledged. */
  lemma WrteAllStream(p: nat, x: Half, q: nat, y: Half, data: bytes)
    requires Stream(p, x, q, y) && x.open
    requires x.inbox != [] && x.inbox[0] == Wrte(q, p, data)
    ensures Stream(p, x.(inbox := x.inbox[1..], written := x.written + data),
                   q, Receive(y, Okay(p, q)))
  {
    WrteFindsRoom(p, x, q, y, data);
    CountsAppend(y.inbox, Okay(p, q));
    assert x.written + data + Flat([]) + Payload(x.inbox[1..])
        == x.written + data + Payload(x.inbox[1..]);
    assert y.open ==> NoClse(Receive(y, Okay(p, q)).inbox);
  }

  /** What the fd does not take of a WRTE is queued. */
  lemma WrteSomeStream(p: nat, x: Half, q: nat, y: Half, data: bytes, n: nat)
    requires Stream(p, x, q, y) && x.open && n <= |data|
    requires x.inbox != [] && x.inbox[0] == Wrte(q, p, data)
    ensures Stream(p, x.(inbox := x.inbox[1..], written := x.written + data[..n], queue := [data[n..]]),
                   q, y)
  {
    WrteFindsRoom(p, x, q, y, data);
    assert Flat([data[n..]]) == data[n..] by { assert Flat([data[n..]][1..]) == []; }
    assert data == data[..n] + data[n..];
    assert x.written + data[..n] + data[n..] + Payload(x.inbox[1..])
        == x.written + data + Payload(x.inbox[1..]);
  }

  /** A WRTE on whose data the fd fails closes the socket. */
  lemma WrteFailsStream(p: nat, x: Half, q: nat, y: Half, data: bytes, n: nat)
    requires Stream(p, x, q, y) && x.open && n <= |data|
    requires x.inbox != [] && x.inbox[0] == Wrte(q, p, data)
    ensures var x1 := x.(inbox := x.inbox[1..], written := x.written + data[..n]);
            Stream(p, Leave(x1), q, Told(x1, y))
  {
    WrteSomeStream(p, x, q, y, data, n);
    var x1 := x.(inbox := x.inbox[1..], written := x.written + data[..n], queue := [data[n..]]);
    LeaveStream(p, x1, q, y);
    DiscardStream(p, Leave(x1), q, Told(x1, y));
    var x2 := x.(inbox := x.inbox[1..], written := x.written + data[..n]);
    assert Leave(x2) == Discard(Leave(x1));
  }

  /** A CLSE closes an open half. */
  lemma ClseStream(p: nat, x: Half, q: nat, y: Half)
    requires Stream(p, x, q, y) && x.open
    requires x.inbox != [] && x.inbox[0].Clse?
    ensures Stream(p, Leave(x.(inbox := x.inbox[1..])), q, Told(x, y))
  {
    LeaveStream(p, x, q, y);
    DropStream(p, Leave(x), q, Told(x, y));
    assert Leave(x.(inbox := x.inbox[1..])) == Leave(x).(inbox := Leave(x).inbox[1..]);
  }
}
