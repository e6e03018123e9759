/** The circular doubly linked lists with a sentinel that hold the local sockets
    (open and closing) and the pending fdevents.  A list refines the sequence of
    its nodes; a node that is on no list has null links. */
module IntrusiveList {
  import opened Lists


  class Node {
    var next: Node?
    var prev: Node?

    constructor ()
      ensures next == null && prev == null
    {
      next, prev := null, null;
    }
  }

  /** The node after position `i` of a ring, and the one before it. */
  ghost function After(ring: seq<Node>, i: nat): Node
    requires i < |ring|
  {
    if i + 1 < |ring| then ring[i + 1] else ring[0]
  }

  ghost function Before(ring: seq<Node>, i: nat): Node
    requires i < |ring|
  {
    if i == 0 then ring[|ring| - 1] else ring[i - 1]
  }

  /** A ring without the node at position `j`. */
  ghost function Cut(ring: seq<Node>, j: nat): seq<Node>
    requires j < |ring|
  {
    ring[..j] + ring[j + 1..]
  }

  ghost predicate Ring(ring: seq<Node>)
    reads ring
  {
    && Distinct(ring)
    && (forall i {:trigger ring[i].next} :: 0 <= i < |ring| ==> ring[i].next == After(ring, i))
    && (forall i {:trigger ring[i].prev} :: 0 <= i < |ring| ==> ring[i].prev == Before(ring, i))
  }

  class List {
    const sentinel: Node
    ghost var nodes: seq<Node>

    ghost predicate Valid()
      reads this, sentinel, nodes
    {
      Ring([sentinel] + nodes)
    }

    constructor ()
      ensures Valid() && nodes == [] && fresh(sentinel)
    {
      sentinel := new Node();
      nodes := [];
      new;
      sentinel.next := sentinel;
      sentinel.prev := sentinel;
    }

    /** insert_local_socket and fdevent_plist_enqueue: the node becomes the tail. */
    method Insert(s: Node)
      requires Valid() && s != sentinel && s !in nodes
      modifies this, sentinel, s, if nodes == [] then sentinel else nodes[|nodes| - 1]
      ensures Valid() && nodes == old(nodes) + [s]
    {
      ghost var ring := [sentinel] + nodes;
      ghost var n := |ring|;
      assert ring[0].prev == Before(ring, 0) && ring[n - 1].next == After(ring, n - 1);
      s.next := sentinel;
      s.prev := s.next.prev;
      s.prev.next := s;
      s.next.prev := s;
      nodes := nodes + [s];
      assert [sentinel] + nodes == ring + [s];
      Extended(ring, s);
    }

    /** A ring whose last node leads to `s` and whose first node comes after it. */
    twostate lemma Extended(ring: seq<Node>, new s: Node)
      requires |ring| > 0 && old(Ring(ring)) && s !in ring
      requires forall i :: 0 <= i < |ring| - 1 ==> ring[i].next == old(ring[i].next)
      requires forall i :: 0 < i < |ring| ==> ring[i].prev == old(ring[i].prev)
      requires ring[|ring| - 1].next == s && s.next == ring[0]
      requires ring[0].prev == s && s.prev == ring[|ring| - 1]
      ensures Ring(ring + [s])
    {
      var r := ring + [s];
      forall i | 0 <= i < |r|
        ensures r[i].next == After(r, i)
      {
        if i < |ring| - 1 { assert old(ring[i].next) == After(ring, i); }
      }
      forall i | 0 <= i < |r|
        ensures r[i].prev == Before(r, i)
      {
        if 0 < i < |ring| { assert old(ring[i].prev) == Before(ring, i); }
      }
    }

    /** remove_socket and fdevent_plist_remove: only the node and its two
        neighbours are written. */
    method Remove(s: Node, ghost k: nat)
      requires Valid() && k < |nodes| && nodes[k] == s
      modifies this, s, s.prev, s.next
      ensures Valid() && nodes == old(nodes)[..k] + old(nodes)[k + 1..]
      ensures s !in nodes && s != sentinel && s.next == null && s.prev == null
    {
      ghost var ring := [sentinel] + nodes;
      assert ring[k + 1] == s;
      Unfold(ring, k + 1);
      Only(ring, k);
      Only(ring, k + 1);
      hide Ring, Distinct;
      if s.prev != null && s.next != null {
        s.prev.next := s.next;
        s.next.prev := s.prev;
        s.next := null;
        s.prev := null;
      }
      nodes := nodes[..k] + nodes[k + 1..];
      assert [sentinel] + nodes == Cut(ring, k + 1);
      Contracted(ring, k + 1);
    }

    /** fdevent_plist_dequeue: the head of the list, if there is one. */
    method Dequeue() returns (node: Node?)
      requires Valid()
      modifies this, sentinel, sentinel.next,
               if |nodes| > 1 then nodes[1] else sentinel
      ensures Valid()
      ensures node == null <==> old(nodes) == []
      ensures node == null ==> nodes == []
      ensures node != null ==> node == old(nodes)[0] && nodes == old(nodes)[1..]
      ensures node != null ==> node !in nodes && node.next == null && node.prev == null
    {
      ghost var ring := [sentinel] + nodes;
      assert ring[0].next == After(ring, 0);
      node := sentinel.next;
      if node == sentinel {
        return null;
      }
      assert ring[1].next == After(ring, 1) && node == ring[1];
      Only(ring, 0);
      Only(ring, 1);
      hide Ring, Distinct;
      sentinel.next := node.next;
      sentinel.next.prev := sentinel;
      node.next := null;
      node.prev := null;
      nodes := nodes[1..];
      assert [sentinel] + nodes == Cut(ring, 1);
      Contracted(ring, 1);
    }

    /** A ring without node `j`, whose neighbours have been joined. */
    twostate lemma Contracted(ring: seq<Node>, new j: nat)
      requires 0 < j < |ring| && old(Ring(ring))
      requires ring[j - 1].next == After(ring, j)
      requires After(ring, j).prev == ring[j - 1]
      requires forall i :: 0 <= i < |ring| && i != j && i != j - 1 ==> ring[i].next == old(ring[i].next)
      requires forall i :: 0 <= i < |ring| && i != j && ring[i] != After(ring, j) ==> ring[i].prev == old(ring[i].prev)
      ensures Ring(Cut(ring, j)) && ring[j] !in Cut(ring, j)
    {
      var r := Cut(ring, j);
      forall i | 0 <= i < |r|
        ensures r[i].next == After(r, i)
      {
        ContractedNext(ring, j, i);
      }
      forall i | 0 <= i < |r|
        ensures r[i].prev == Before(r, i)
      {
        ContractedPrev(ring, j, i);
      }
    }

    twostate lemma ContractedNext(ring: seq<Node>, new j: nat, new i: nat)
      requires 0 < j < |ring| && i < |ring| - 1 && old(Ring(ring))
      requires ring[j - 1].next == After(ring, j)
      requires forall i :: 0 <= i < |ring| && i != j && i != j - 1 ==> ring[i].next == old(ring[i].next)
      ensures Cut(ring, j)[i].next == After(Cut(ring, j), i)
    {
      var o := if i < j then i else i + 1;
      assert Cut(ring, j)[i] == ring[o];
      if i != j - 1 { assert old(ring[o].next) == After(ring, o); }
    }

    twostate lemma ContractedPrev(ring: seq<Node>, new j: nat, new i: nat)
      requires 0 < j < |ring| && i < |ring| - 1 && old(Ring(ring))
      requires After(ring, j).prev == ring[j - 1]
      requires forall i :: 0 <= i < |ring| && i != j && ring[i] != After(ring, j) ==> ring[i].prev == old(ring[i].prev)
      ensures Cut(ring, j)[i].prev == Before(Cut(ring, j), i)
    {
      var o := if i < j then i else i + 1;
      assert Cut(ring, j)[i] == ring[o];
      if ring[o] != After(ring, j) { assert old(ring[o].prev) == Before(ring, o); }
    }
  }

  lemma Only(ring: seq<Node>, k: nat)
    requires Ring(ring) && k < |ring|
    ensures forall i :: 0 <= i < |ring| && i != k ==> ring[i] != ring[k]
  {
  }

  lemma Unfold(ring: seq<Node>, k: nat)
    requires Ring(ring) && k < |ring|
    ensures ring[k].next == After(ring, k) && ring[k].prev == Before(ring, k)
  {
  }

  /** A socket with a backlog changes lists when it closes: remove_socket, then
      insert_local_socket into the closing list. */
  method Transfer(open: List, closing: List, s: Node, ghost k: nat)
    requires open.Valid() && closing.Valid() && k < |open.nodes| && open.nodes[k] == s
    requires open != closing && open.sentinel != closing.sentinel
    requires open.sentinel !in closing.nodes && closing.sentinel !in open.nodes
    requires forall n :: n in open.nodes ==> n !in closing.nodes
    modifies open, closing, open.sentinel, open.nodes, closing.sentinel, closing.nodes
    ensures open.Valid() && closing.Valid()
    ensures open.nodes == old(open.nodes)[..k] + old(open.nodes)[k + 1..]
    ensures closing.nodes == old(closing.nodes) + [s]
  {
    Neighbours(open, k);
    hide List.Valid;
    assert s in open.nodes;
    open.Remove(s, k);
    assert forall n :: n in open.nodes ==> n in old(open.nodes);
    ghost var last := if closing.nodes == [] then closing.sentinel else closing.nodes[|closing.nodes| - 1];
    assert last != open.sentinel && last !in open.nodes;
    closing.Insert(s);
  }

  /** The links of a listed node stay within the list. */
  lemma Neighbours(l: List, k: nat)
    requires l.Valid() && k < |l.nodes|
    ensures var s := l.nodes[k];
            && (s.next == l.sentinel || (s.next != null && s.next in l.nodes))
            && (s.prev == l.sentinel || (s.prev != null && s.prev in l.nodes))
  {
    var ring := [l.sentinel] + l.nodes;
    assert ring[k + 1].next == After(ring, k + 1) && ring[k + 1].prev == Before(ring, k + 1);
  }
}
