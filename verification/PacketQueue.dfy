/** The packet queue of a local socket as it is in memory: packets chained by
    their next fields between pkt_first and pkt_last, each with a cursor into
    its payload.  The queue refines the list of byte strings that the Sockets
    module works on. */
module PacketQueue {
  import opened Bytes
  import opened Lists
  import opened Packets
  import opened SocketEngine

  class Packet {
    const data: bytes
    var ptr: nat
    var len: nat
    var next: Packet?

    constructor (data: bytes)
      ensures this.data == data && ptr == 0 && len == |data| && next == null
    {
      this.data, ptr, len, next := data, 0, |data|, null;
    }

    /** The cursor stands so that `rest` is what has not been written. */
    ghost predicate Holds(rest: bytes)
      reads this`ptr, this`len
    {
      ptr + len == |data| && data[ptr..] == rest
    }
  }

  ghost function At(ps: seq<Packet>, i: nat): Packet? {
    if i < |ps| then ps[i] else null
  }

  /** `ps` are the packets met on the way from `first` to `last`, and `left` is
      what each of them has still to write. */
  ghost predicate Chain(first: Packet?, last: Packet?, ps: seq<Packet>, left: seq<bytes>)
    reads ps
  {
    && |left| == |ps|
    && first == At(ps, 0)
    && last == (if ps == [] then null else ps[|ps| - 1])
    && (forall i :: 0 <= i < |ps| ==> ps[i].Holds(left[i]))
    && (forall i {:trigger ps[i].next} :: 0 <= i < |ps| ==> ps[i].next == At(ps, i + 1))
  }

  /** What a write event comes to. */
  datatype Outcome = Drained | Blocked | Failed

  class Queue {
    var first: Packet?
    var last: Packet?
    ghost var packets: seq<Packet>    // the packets in the queue
    ghost var left: seq<bytes>        // what each of them has still to write
    ghost var released: seq<Packet>   // the packets given to put_apacket
    ghost var accepted: bytes         // all payload that was enqueued
    ghost var written: bytes          // all bytes that the fd took

    /** The chain is sound, no packet is in it twice or has been released, and
        nothing is lost: what was written and what is queued is what was accepted. */
    ghost predicate Valid()
      reads this, packets
    {
      && Chain(first, last, packets, left)
      && Distinct(released + packets)
      && written + Flat(left) == accepted
    }

    constructor ()
      ensures Valid() && packets == [] && released == [] && accepted == [] && written == []
    {
      first, last, packets, left, released, accepted, written := null, null, [], [], [], [], [];
    }

    /** The tail of local_socket_enqueue: the packet goes behind pkt_last. */
    method Append(p: Packet, ghost rest: bytes)
      requires Chain(first, last, packets, left) && Distinct(packets)
      requires p !in packets && p.Holds(rest)
      modifies this`first, this`last, this`packets, this`left, packets, p
      ensures Chain(first, last, packets, left)
      ensures packets == old(packets) + [p] && left == old(left) + [rest]
    {
      hide Packet.Holds;
      ghost var ps, n := packets, |packets|;
      p.next := null;
      if first != null {
        assert forall i :: 0 <= i < n - 1 ==> ps[i] != last;
        last.next := p;
      } else {
        first := p;
      }
      last := p;
      packets, left := ps + [p], left + [rest];
      forall i | 0 <= i < n + 1
        ensures packets[i].Holds(left[i])
      {
        assert i < n ==> packets[i] == ps[i] && old(ps[i].Holds(left[i]));
      }
      assert forall i {:trigger packets[i].next} :: 0 <= i < n ==> packets[i] == ps[i];
    }

    /** The packet joins the backlog. */
    method Backlog(p: Packet, ghost rest: bytes)
      requires Chain(first, last, packets, left) && Distinct(released + packets)
      requires p !in packets && p !in released && p.Holds(rest)
      requires written + (Flat(left) + rest) == accepted
      modifies this`first, this`last, this`packets, this`left, packets, p
      ensures Valid() && packets == old(packets) + [p] && left == old(left) + [rest]
    {
      FlatAppend(left, rest);
      DistinctAppend(released + packets, p);
      assert (released + packets) + [p] == released + (packets + [p]);
      assert Distinct(packets) by { DistinctSuffix(released, packets); }
      hide Chain, Flat, Distinct, Packet.Holds;
      Append(p, rest);
    }

    /** local_socket_enqueue.  0: the packet was written at once and released;
        1: it is the new tail of the queue; after a broken write, which happens
        only with an empty queue, the packet is neither queued nor released. */
    method Enqueue(p: Packet, answers: seq<WriteAnswer>) returns (ret: int, broken: bool)
      requires Valid() && p !in packets && p !in released && p.Holds(p.data)
      modifies this, packets, p
      ensures var r := OfferResult(answers, |p.data|);
              var direct := old(packets) == [];
              var now := if direct then p.data[..r.taken] else [];
              && broken == (direct && r.failed)
              && (ret == 0 <==> direct && r.taken == |p.data|)
              && written == old(written) + now
              && released == old(released) + (if ret == 0 then [p] else [])
              && packets == old(packets) + (if ret == 0 || broken then [] else [p])
              && left == old(left) + (if ret == 0 || broken then [] else [p.data[|now|..]])
      ensures accepted == old(accepted) + p.data
      ensures !broken ==> Valid()
    {
      hide OfferResult;
      assert Flat([]) == [];
      assert first == null <==> packets == [];
      hide Chain, Distinct, Flat;
      assert packets == [] ==> left == [] by { Unfold(); }
      accepted := accepted + p.data;
      p.ptr := 0;
      if first == null {
        ghost var r := OfferResult(answers, |p.data|);
        assert old(written) + [] == old(written);
        DistinctAppend(released + packets, p);
        assert (released + packets) + [p] == (released + [p]) + packets;
        ret, broken := Offer(p, answers);
        assert p.data[..r.taken] + p.data[r.taken..] == p.data;
        Regroup(old(written), p.data[..r.taken], p.data[r.taken..]);
        if ret != 0 && !broken {
          Backlog(p, p.data[r.taken..]);
        }
      } else {
        Regroup(written, Flat(left), p.data);
        Backlog(p, p.data);
        ret, broken := 1, false;
      }
    }

    /** The write loop of local_socket_enqueue. */
    method Offer(p: Packet, answers: seq<WriteAnswer>) returns (ret: int, broken: bool)
      requires Chain(first, last, packets, left) && packets == []
      requires p !in released && p.Holds(p.data)
      modifies this`written, this`released, p
      ensures var r := OfferResult(answers, |p.data|);
              && broken == r.failed
              && (ret == 0 <==> r.taken == |p.data|)
              && written == old(written) + p.data[..r.taken]
              && released == old(released) + (if ret == 0 then [p] else [])
              && p.Holds(p.data[r.taken..])
    {
      hide Chain;
      ghost var r := OfferResult(answers, |p.data|);
      broken := false;
      var rest := answers;
      while p.len > 0
        invariant p.ptr + p.len == |p.data| && !broken
        invariant r.taken == p.ptr + OfferResult(rest, p.len).taken
        invariant r.failed == OfferResult(rest, p.len).failed
        invariant written == old(written) + p.data[..p.ptr] && released == old(released)
        decreases |rest|
      {
        if rest == [] || rest[0].WouldBlock? {
          break;
        }
        if rest[0].Took? && rest[0].n > 0 {
          var k := Min(rest[0].n, p.len);
          assert p.data[..p.ptr] + p.data[p.ptr..p.ptr + k] == p.data[..p.ptr + k];
          written := written + p.data[p.ptr..p.ptr + k];
          p.len := p.len - k;
          p.ptr := p.ptr + k;
          rest := rest[1..];
        } else {
          return 1, true;
        }
      }
      assert r.taken == p.ptr && !r.failed;
      hide OfferResult;
      if p.len == 0 {
        released := released + [p];
        return 0, false;
      }
      ret := 1;
    }

    /** The first packet leaves the queue and is released. */
    method Shift()
      requires Chain(first, last, packets, left) && packets != [] && Distinct(released + packets)
      modifies this`first, this`last, this`packets, this`left, this`released
      ensures Chain(first, last, packets, left) && Distinct(released + packets)
      ensures packets == old(packets)[1..] && left == old(left)[1..]
      ensures released == old(released) + [old(packets)[0]]
    {
      assert first == packets[0] && first.next == At(packets, 1);
      first := first.next;
      if first == null {
        last := null;
      }
      assert forall i :: 0 <= i < |packets[1..]| ==> packets[1..][i] == packets[i + 1];
      assert (released + [packets[0]]) + packets[1..] == released + packets;
      released, packets, left := released + [packets[0]], packets[1..], left[1..];
    }

    /** One write of `k` bytes from the first packet. */
    method Advance(k: nat)
      requires Chain(first, last, packets, left) && packets != [] && Distinct(packets)
      requires k <= |left[0]|
      modifies this`written, this`left, packets[0]
      ensures Chain(first, last, packets, left)
      ensures left == [old(left)[0][k..]] + old(left)[1..]
      ensures written == old(written) + old(left)[0][..k]
    {
      hide Distinct;
      Unfold();
      DistinctTail(packets);
      assert forall i :: 0 < i < |packets| ==> packets[i] == packets[1..][i - 1];
      written := written + left[0][..k];
      first.ptr := first.ptr + k;
      first.len := first.len - k;
      left := [left[0][k..]] + left[1..];
    }

    /** The FDE_WRITE loops of local_socket_event_func. */
    method OnWritable(answers: seq<WriteAnswer>) returns (outcome: Outcome)
      requires Valid()
      modifies this, packets
      ensures Valid() && accepted == old(accepted)
      ensures var r := DrainResult(answers, old(left));
              && written == old(written) + Flat(old(left))[..r.taken]
              && left == AfterWriting(old(left), r.taken)
              && outcome == if left == [] then Drained else if r.failed then Failed else Blocked
      ensures released + packets == old(released + packets)
    {
      hide Draining, DrainResult, AfterWriting, Flat, Chain, Distinct;
      ghost var all, taken := left, [];
      var rest := answers;
      DrainingStart(all, answers);
      outcome := Drained;
      label passes:
      while first != null
        invariant Chain(first, last, packets, left) && Distinct(released + packets)
        invariant outcome == Drained && released + packets == old(released + packets)
        invariant forall p :: p in packets ==> p in old(packets)
        invariant written == old(written) + taken && accepted == old(accepted)
        invariant Draining(all, answers, taken, left, rest)
        decreases |rest|, |left|
      {
        Unfold();
        ghost var n := |left|;
        while first.len > 0
          invariant Chain(first, last, packets, left) && Distinct(released + packets)
          invariant outcome == Drained && released + packets == old(released + packets)
          invariant forall p :: p in packets ==> p in old(packets)
          invariant written == old(written) + taken && accepted == old(accepted)
          invariant Draining(all, answers, taken, left, rest)
          invariant n == |left| == |packets| && packets != [] && first == packets[0] && first.Holds(left[0])
          decreases |rest|
        {
          if rest == [] || rest[0].WouldBlock? {
            outcome := Blocked;
            break passes;
          } else if rest[0].Took? && rest[0].n > 0 {
            var k := Min(rest[0].n, first.len);
            DrainingTook(all, answers, taken, left, rest, k);
            DistinctSuffix(released, packets);
            taken := taken + left[0][..k];
            assert packets[0] in packets;
            Advance(k);
            Unfold();
          } else if rest[0].Interrupted? {
            DrainingInterrupted(all, answers, taken, left, rest);
          } else {
            outcome := Failed;
            break passes;
          }
          rest := rest[1..];
        }
        DrainingPop(all, answers, taken, left, rest);
        Shift();
      }
      Unfold();
      DrainingEnd(all, answers, taken, left, rest, outcome.Failed?);
      AfterWritingKeepsBytes(all, |taken|);
      assert old(written) + (taken + Flat(left)) == (old(written) + taken) + Flat(left);
    }

    /** The loop of local_socket_destroy: what is still queued is released too,
        and no packet is released twice. */
    method Discard()
      requires Valid()
      modifies this
      ensures first == null && packets == []
      ensures released == old(released + packets) && Distinct(released)
    {
      hide Chain, Distinct, Flat;
      Unfold();
      while first != null
        invariant Chain(first, last, packets, left) && Distinct(released + packets)
        invariant released + packets == old(released + packets)
        invariant first != null <==> packets != []
        decreases |packets|
      {
        Shift();
        Unfold();
      }
      assert released + packets == released;
    }

    lemma Unfold()
      requires Chain(first, last, packets, left)
      ensures first != null <==> packets != []
      ensures |left| == |packets|
      ensures packets != [] ==> first == packets[0] && first.Holds(left[0])
    {
    }
  }
}
