/** Protocol packets and the queues they travel in.

    A channel is the sequence of packets that one endpoint has handed to
    send_packet and that the other endpoint has not handled yet. */
module Packets {
  import opened Bytes

  /** The four stream packets.  `local` is arg0 and `remote` is arg1 of the
      packet, both named from the sender's side. */
  datatype Message =
    | Open(local: nat, destination: bytes)
    | Okay(local: nat, remote: nat)
    | Clse(local: nat, remote: nat)
    | Wrte(local: nat, remote: nat, data: bytes)
  {
    /** True if the packet is addressed to socket `id` of the receiver. */
    predicate IsFor(id: nat) {
      !Open? && remote == id
    }
  }

  /** The packets in a channel that are addressed to socket `id`. */
  function Inbox(channel: seq<Message>, id: nat): seq<Message> {
    if channel == [] then []
    else (if channel[0].IsFor(id) then [channel[0]] else []) + Inbox(channel[1..], id)
  }

  lemma {:induction false} InboxAppend(channel: seq<Message>, m: Message, id: nat)
    ensures Inbox(channel + [m], id) == Inbox(channel, id) + (if m.IsFor(id) then [m] else [])
  {
    if channel == [] {
      assert channel + [m] == [m];
      assert [m][1..] == [];
    } else {
      assert (channel + [m])[1..] == channel[1..] + [m];
      InboxAppend(channel[1..], m, id);
    }
  }

  lemma {:induction false} InboxEmpty(channel: seq<Message>, id: nat)
    requires forall m :: m in channel ==> !m.IsFor(id)
    ensures Inbox(channel, id) == []
  {
    if channel != [] {
      assert channel[0] in channel;
      InboxEmpty(channel[1..], id);
    }
  }

  /** The requests to open a stream that socket `id` of the sender has in flight. */
  function Requests(channel: seq<Message>, id: nat): nat {
    if channel == [] then 0
    else (if channel[0].Open? && channel[0].local == id then 1 else 0) + Requests(channel[1..], id)
  }

  lemma {:induction false} RequestsAppend(channel: seq<Message>, m: Message, id: nat)
    ensures Requests(channel + [m], id)
         == Requests(channel, id) + if m.Open? && m.local == id then 1 else 0
  {
    if channel == [] {
      assert channel + [m] == [m];
      assert [m][1..] == [];
    } else {
      assert (channel + [m])[1..] == channel[1..] + [m];
      RequestsAppend(channel[1..], m, id);
    }
  }

  lemma {:induction false} RequestsPositive(channel: seq<Message>, id: nat)
    ensures Requests(channel, id) > 0 <==> exists m :: m in channel && m.Open? && m.local == id
  {
    if channel != [] {
      RequestsPositive(channel[1..], id);
      assert channel == [channel[0]] + channel[1..];
    }
  }

  /** The payload carried by the WRTE packets of a sequence. */
  function Payload(ms: seq<Message>): bytes {
    if ms == [] then []
    else (if ms[0].Wrte? then ms[0].data else []) + Payload(ms[1..])
  }

  function WrteCount(ms: seq<Message>): nat {
    if ms == [] then 0 else (if ms[0].Wrte? then 1 else 0) + WrteCount(ms[1..])
  }

  function OkayCount(ms: seq<Message>): nat {
    if ms == [] then 0 else (if ms[0].Okay? then 1 else 0) + OkayCount(ms[1..])
  }

  lemma {:induction false} CountsAppend(ms: seq<Message>, m: Message)
    ensures Payload(ms + [m]) == Payload(ms) + if m.Wrte? then m.data else []
    ensures WrteCount(ms + [m]) == WrteCount(ms) + if m.Wrte? then 1 else 0
    ensures OkayCount(ms + [m]) == OkayCount(ms) + if m.Okay? then 1 else 0
  {
    if ms == [] {
      assert ms + [m] == [m];
      assert [m][1..] == [];
    } else {
      assert (ms + [m])[1..] == ms[1..] + [m];
      CountsAppend(ms[1..], m);
    }
  }

  /** What is left of a packet queue after `n` of its bytes have been written;
      packets with nothing left are released. */
  function AfterWriting(queue: seq<bytes>, n: nat): seq<bytes> {
    if queue == [] then []
    else if |queue[0]| <= n then AfterWriting(queue[1..], n - |queue[0]|)
    else [queue[0][n..]] + queue[1..]
  }

  /** Writing loses nothing: the bytes written and the bytes left are the queue,
      and the queue is empty exactly when everything has been written. */
  lemma {:induction false} AfterWritingKeepsBytes(queue: seq<bytes>, n: nat)
    requires n <= |Flat(queue)|
    ensures Flat(queue) == Flat(queue)[..n] + Flat(AfterWriting(queue, n))
    ensures AfterWriting(queue, n) == [] <==> n == |Flat(queue)|
    ensures AfterWriting(queue, n) != [] ==> AfterWriting(queue, n)[0] != []
    ensures |AfterWriting(queue, n)| <= |queue|
  {
    if queue == [] {
    } else if |queue[0]| <= n {
      AfterWritingKeepsBytes(queue[1..], n - |queue[0]|);
      PrefixOfConcat(queue[0], Flat(queue[1..]), n);
    } else {
      var rest := [queue[0][n..]] + queue[1..];
      assert rest[0] == queue[0][n..] && rest[1..] == queue[1..];
      assert Flat(queue)[n..] == queue[0][n..] + Flat(queue[1..]);
      assert Flat(rest) == Flat(queue)[n..];
    }
  }

  lemma PrefixOfConcat(a: bytes, b: bytes, n: nat)
    requires |a| <= n <= |a| + |b|
    ensures (a + b)[..n] == a + b[..n - |a|]
  {
  }
}
