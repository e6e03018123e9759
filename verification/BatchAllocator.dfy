/** The batch allocator of the JSON library: pages that are carved into blocks, and
    a free list that lives in the released blocks themselves. */
module BatchAllocator {
  import opened Lists


  /** A block is named by its page, in order of creation, and its first object. */
  datatype Block = Block(page: nat, offset: nat)

  datatype Pointer = Null | At(block: Block)

  /** BatchInfo: used_ and end_ as offsets into buffer_. */
  datatype Page = Page(used: nat, end: nat)

  predicate IsFull(p: Page) {
    p.used == p.end
  }

  /** `free` are the blocks met on the way from `head`, each of which holds the
      address of the next in its first word. */
  ghost predicate Chain(head: Pointer, free: seq<Block>, memory: map<Block, Pointer>)
    decreases |free|
  {
    if free == [] then head == Null
    else head == At(free[0]) && free[0] in memory && Chain(memory[free[0]], free[1..], memory)
  }

  lemma {:induction false} ChainKept(head: Pointer, free: seq<Block>, memory: map<Block, Pointer>, b: Block, p: Pointer)
    requires Chain(head, free, memory) && b !in free
    ensures Chain(head, free, memory[b := p])
    decreases |free|
  {
    if free != [] {
      assert free[0] in free;
      ChainKept(memory[free[0]], free[1..], memory, b, p);
    }
  }

  lemma HeadOfChain(p: Pointer, free: seq<Block>, memory: map<Block, Pointer>)
    requires Chain(p, free, memory) && p.At?
    ensures free != [] && p.block == free[0] && p.block in memory && Chain(memory[p.block], free[1..], memory)
  {
  }

  /** The number of blocks carved out of all pages. */
  function CarvedCount(pages: seq<Page>, per: nat): nat
    requires per > 0
  {
    if pages == [] then 0 else pages[0].used / per + CarvedCount(pages[1..], per)
  }

  /** The page of a block; pages are numbered in order of creation. */
  ghost function PageOf(pages: seq<Page>, b: Block): Page
    requires b.page < |pages|
  {
    pages[|pages| - 1 - b.page]
  }

  ghost predicate CarvedIn(pages: seq<Page>, per: nat, b: Block)
    requires per > 0
  {
    b.page < |pages| && b.offset % per == 0 && b.offset < PageOf(pages, b).used
  }

  /** Pages are carved in whole blocks, not beyond their ends. */
  ghost predicate GoodPages(pages: seq<Page>, per: nat, perPage: nat)
    requires per > 0
  {
    forall i :: 0 <= i < |pages| ==>
      pages[i].used <= pages[i].end <= perPage && pages[i].used % per == 0 && pages[i].end % per == 0
  }

  lemma GoodPagesGrow(pages: seq<Page>, per: nat, perPage: nat)
    requires per > 0 && perPage % per == 0 && GoodPages(pages, per, perPage)
    ensures GoodPages([Page(0, perPage)] + pages, per, perPage)
  {
  }

  lemma DummyPage(per: nat, perPage: nat)
    requires per > 0
    ensures GoodPages([Page(0, 0)], per, perPage) && CarvedCount([Page(0, 0)], per) == 0
    ensures forall b :: !CarvedIn([Page(0, 0)], per, b)
  {
    assert [Page(0, 0)][1..] == [];
  }

  lemma NewPageIsUncarved(pages: seq<Page>, per: nat, end: nat)
    requires per > 0
    ensures forall b :: CarvedIn([Page(0, end)] + pages, per, b) <==> CarvedIn(pages, per, b)
    ensures CarvedCount([Page(0, end)] + pages, per) == CarvedCount(pages, per)
  {
    var after := [Page(0, end)] + pages;
    assert after[1..] == pages;
    forall b: Block
      ensures CarvedIn(after, per, b) <==> CarvedIn(pages, per, b)
    {
      if b.page < |pages| {
        assert PageOf(after, b) == PageOf(pages, b);
      }
    }
  }

  /** Carving makes one block more. */
  lemma OneBlockMore(pages: seq<Page>, i: nat, per: nat, b: Block)
    requires per > 0 && i < |pages| && pages[i].used % per == 0
    requires b == Block(|pages| - 1 - i, pages[i].used)
    ensures var after := pages[i := Page(pages[i].used + per, pages[i].end)];
            forall c :: CarvedIn(after, per, c) <==> CarvedIn(pages, per, c) || c == b
    ensures !CarvedIn(pages, per, b)
  {
    var after := pages[i := Page(pages[i].used + per, pages[i].end)];
    forall c: Block
      ensures CarvedIn(after, per, c) <==> CarvedIn(pages, per, c) || c == b
    {
      if c.page < |pages| && c.page != b.page {
        assert PageOf(after, c) == PageOf(pages, c);
      } else if c.page == b.page && c.offset % per == 0 && pages[i].used < c.offset {
        MultipleBelow(pages[i].used, c.offset, per);
      }
    }
  }

  class Allocator {
    const per: nat            // objectPerAllocation
    const perPage: nat        // objectsPerPage_
    var pages: seq<Page>      // batches_, the newest page first
    var current: nat          // currentBatch_ as a position in that list
    var freeHead: Pointer
    var memory: map<Block, Pointer>   // the first word of each block
    ghost var free: seq<Block>
    ghost var live: set<Block>

    ghost predicate Carved(b: Block)
      requires per > 0
      reads this
    {
      CarvedIn(pages, per, b)
    }

    /** Pages are carved in whole blocks up to their ends.  The current page is the
        newest one, and every page behind it is full. */
    ghost predicate PagesValid()
      reads this
    {
      && 0 < per && perPage % per == 0 && 0 < perPage
      && current == 0 < |pages|
      && GoodPages(pages, per, perPage)
      && (forall i :: current < i < |pages| ==> IsFull(pages[i]))
    }

    /** The carved blocks are the live ones and those on the free list, each once. */
    ghost predicate Valid()
      reads this
    {
      && PagesValid()
      && Chain(freeHead, free, memory) && Distinct(free)
      && (forall b :: Carved(b) <==> b in live || b in free)
      && (forall b :: b in live ==> b !in free)
      && CarvedCount(pages, per) == |live| + |free|
    }

    constructor (per: nat, perPage: nat)
      requires 0 < per && perPage >= 16 && perPage % per == 0
      ensures this.per == per && this.perPage == perPage && Valid() && live == {} && free == []
    {
      this.per, this.perPage := per, perPage;
      pages, current := [Page(0, 0)], 0;     // a dummy page
      freeHead, memory, free, live := Null, map[], [], {};
      new;
      hide CarvedCount;
      DummyPage(per, perPage);
    }

    /** allocate. */
    method Allocate() returns (b: Block)
      requires Valid()
      modifies this`pages, this`current, this`freeHead, this`free, this`live
      ensures Valid() && b !in old(live) && live == old(live) + {b}
      ensures memory == old(memory) && forall c :: old(Carved(c)) ==> Carved(c)
      ensures old(free) != [] ==> b == old(free)[0] && free == old(free)[1..] && pages == old(pages)
      ensures old(free) == [] ==> !old(Carved(b)) && free == []
    {
      if freeHead.At? {
        b := TakeFree();
      } else {
        assert free == [];
        FindRoom();
        b := Carve();
      }
    }

    /** The head of the free list. */
    method TakeFree() returns (b: Block)
      requires Valid() && freeHead.At?
      modifies this`freeHead, this`free, this`live
      ensures Valid() && free == old(free)[1..] && old(free) != [] && b == old(free)[0]
      ensures b !in old(live) && live == old(live) + {b}
    {
      hide CarvedIn, CarvedCount, Chain, Distinct, GoodPages;
      HeadOfChain(freeHead, free, memory);
      DistinctTail(free);
      b := freeHead.block;
      freeHead := memory[b];
      free := free[1..];
      live := live + {b};
    }

    /** The search for a page with room; a new page goes to the head of the list. */
    method FindRoom()
      requires Valid() && free == []
      modifies this`pages, this`current
      ensures Valid() && !IsFull(pages[current])
      ensures forall c :: Carved(c) <==> old(Carved(c))
    {
      hide Chain, Distinct, CarvedCount, CarvedIn, GoodPages;
      if IsFull(pages[current]) {
        current := current + 1;
        while current < |pages| && IsFull(pages[current])
          invariant old(current) < current <= |pages| && pages == old(pages)
          invariant forall i :: old(current) < i < |pages| ==> IsFull(pages[i])
        {
          current := current + 1;
        }
        assert current == |pages|;
        NewPageIsUncarved(pages, per, perPage);
        GoodPagesGrow(pages, per, perPage);
        assert forall i :: 0 < i <= |pages| ==> ([Page(0, perPage)] + pages)[i] == pages[i - 1];
        assert IsFull(pages[old(current)]);
        pages := [Page(0, perPage)] + pages;
        current := 0;
      }
    }

    /** The next block of the current page. */
    method Carve() returns (b: Block)
      requires Valid() && free == [] && !IsFull(pages[current])
      modifies this`pages, this`live
      ensures Valid() && !old(Carved(b)) && b !in old(live) && live == old(live) + {b}
      ensures forall c :: Carved(c) <==> old(Carved(c)) || c == b
    {
      hide Chain, Distinct, CarvedCount, CarvedIn;
      var p := pages[current];
      b := Block(|pages| - 1 - current, p.used);
      OneBlockMore(pages, current, per, b);
      MultipleBelow(p.used, p.end, per);
      CountAfterCarving(pages, current, per);
      pages := pages[current := Page(p.used + per, p.end)];
      live := live + {b};
    }

    /** release, of a live block. */
    method Release(b: Block)
      requires Valid() && b in live
      modifies this`memory, this`freeHead, this`free, this`live
      ensures Valid() && live == old(live) - {b} && free == [b] + old(free)
    {
      ChainKept(freeHead, free, memory, b, freeHead);
      hide CarvedIn, CarvedCount;
      memory := memory[b := freeHead];
      freeHead := At(b);
      free := [b] + free;
      live := live - {b};
      assert free[1..] == old(free);
    }

    /** The client may write what it likes into a block that it holds. */
    method Write(b: Block, word: Pointer)
      requires Valid() && b in live
      modifies this`memory
      ensures Valid()
    {
      ChainKept(freeHead, free, memory, b, word);
      memory := memory[b := word];
    }

    /** A block lies in its page. */
    lemma InBounds(b: Block)
      requires Valid() && b in live
      ensures b.page < |pages| && b.offset + per <= PageOf(pages, b).end <= perPage
    {
      assert Carved(b);
      MultipleBelow(b.offset, PageOf(pages, b).end, per);
    }

    /** Two live blocks do not overlap. */
    lemma LiveBlocksAreDisjoint(a: Block, b: Block)
      requires Valid() && a in live && b in live && a != b
      ensures a.page != b.page || a.offset + per <= b.offset || b.offset + per <= a.offset
    {
      assert Carved(a) && Carved(b);
      if a.page == b.page && a.offset < b.offset {
        MultipleBelow(a.offset, b.offset, per);
      } else if a.page == b.page {
        MultipleBelow(b.offset, a.offset, per);
      }
    }
  }

  lemma MulMono(a: nat, b: nat, k: nat)
    requires a <= b
    ensures a * k <= b * k
  {
  }

  lemma MulStrict(a: nat, b: nat, k: nat)
    requires a < b
    ensures a * k + k <= b * k
  {
    MulMono(a + 1, b, k);
    assert (a + 1) * k == a * k + k;
  }

  lemma MultipleBelow(m: nat, n: nat, per: nat)
    requires per > 0 && m % per == 0 && n % per == 0 && m < n
    ensures m + per <= n && (m + per) % per == 0
  {
    var a, b := m / per, n / per;
    assert m == a * per && n == b * per;
    if b <= a {
      MulMono(b, a, per);
    } else {
      MulMono(a + 1, b, per);
      assert (a + 1) * per == m + per;
      MultipleOf(a + 1, per);
    }
  }

  lemma DivUnique(x: nat, q: nat, r: nat, per: nat)
    requires x == q * per + r && r < per
    ensures x / per == q && x % per == r
  {
    var d, m := x / per, x % per;
    assert x == d * per + m;
    if d < q {
      MulStrict(d, q, per);
    } else if q < d {
      MulStrict(q, d, per);
    }
  }

  lemma MultipleOf(a: nat, per: nat)
    requires per > 0
    ensures a * per % per == 0 && a * per / per == a
  {
    DivUnique(a * per, a, 0, per);
  }

  lemma OneMore(m: nat, per: nat)
    requires per > 0 && m % per == 0
    ensures (m + per) % per == 0 && (m + per) / per == m / per + 1
  {
    var a := m / per;
    assert m == a * per;
    assert (a + 1) * per == a * per + per;
    MultipleOf(a + 1, per);
  }

  lemma {:induction false} CountAfterCarving(pages: seq<Page>, i: nat, per: nat)
    requires per > 0 && i < |pages| && pages[i].used % per == 0
    ensures CarvedCount(pages[i := Page(pages[i].used + per, pages[i].end)], per) == CarvedCount(pages, per) + 1
  {
    var after := pages[i := Page(pages[i].used + per, pages[i].end)];
    if i == 0 {
      OneMore(pages[0].used, per);
      assert after[1..] == pages[1..];
    } else {
      CountAfterCarving(pages[1..], i - 1, per);
      assert after[1..] == pages[1..][i - 1 := Page(pages[i].used + per, pages[i].end)];
    }
  }

  // ------------------------------------------------- what goes wrong else

  /** A page is left only when a block begins exactly at its end.  The k-th block
      of a page is carved if that did not happen before. */
  ghost predicate IsCarved(k: nat, per: nat, perPage: nat) {
    forall j: nat :: j <= k ==> j * per != perPage
  }

  /** A page has room for perPage * per objects.  Carving stays within it exactly
      if the size of a block divides the number of objects per page. */
  lemma CarvingStaysInPage(per: nat, perPage: nat)
    requires per > 0 && perPage > 0
    ensures (forall k: nat :: IsCarved(k, per, perPage) ==> k * per + per <= perPage * per) <==> perPage % per == 0
  {
    if perPage % per == 0 {
      forall k: nat | IsCarved(k, per, perPage)
        ensures k * per + per <= perPage * per
      {
        WholePage(k, per, perPage);
      }
    } else {
      forall j: nat
        ensures j * per != perPage
      {
        MultipleOf(j, per);
      }
      assert IsCarved(perPage, per, perPage);
    }
  }

  lemma WholePage(k: nat, per: nat, perPage: nat)
    requires per > 0 && perPage > 0 && perPage % per == 0 && IsCarved(k, per, perPage)
    ensures k * per + per <= perPage * per
  {
    var q := perPage / per;
    assert q * per == perPage;
    if k < q {
      MulMono(k + 1, q, per);
      assert (k + 1) * per == k * per + per;
      MulMono(1, per, perPage);
      assert perPage * per == per * perPage;
    }
  }

  /** Pages of 255 objects and blocks of 8, as the library's array allocator asks
      for, are such a case. */
  lemma ArrayPagesOverrun()
    ensures 255 % 8 != 0 && exists k: nat :: IsCarved(k, 8, 255) && k * 8 + 8 > 255 * 8
  {
    CarvingStaysInPage(8, 255);
  }
}
