/** The three region lists read together: which status they give each address, and what the manager's edits of them
    mean for the memory state. */
module Books {
  import opened Words
  import opened Wrappers
  import opened Spans
  import opened Blocks
  import opened PhysicalMemory

  /** Free conventional memory, free other memory, and allocated memory. */
  datatype Books = Books(conv: seq<Span>, mem: seq<Span>, alloc: seq<Span>)

  ghost function StatusOf(b: Books, a: int): Status {
    if At(b.conv, a).Some? then Conventional
    else if At(b.mem, a).Some? then Other
    else if At(b.alloc, a).Some? then Owned(At(b.alloc, a).value)
    else Absent
  }

  ghost function Meaning(b: Books): Memory {
    (a: int) => StatusOf(b, a)
  }

  /** No address is in two lists, and free memory is open to everyone. */
  ghost predicate Exclusive(b: Books) {
    forall a ::
      && (At(b.conv, a).Some? ==> At(b.conv, a) == Some(ANYTHREAD) && At(b.mem, a).None? && At(b.alloc, a).None?)
      && (At(b.mem, a).Some? ==> At(b.mem, a) == Some(ANYTHREAD) && At(b.alloc, a).None?)
  }

  function PageBase(a: int, page: int): int
    requires page > 0
  {
    a - a % page
  }

  /** All addresses of a page have the same status. */
  ghost predicate PageWise(m: Memory, page: int)
    requires page > 0
  {
    forall a {:trigger PageBase(a, page)} :: m(a) == m(PageBase(a, page))
  }

  ghost predicate Consistent(b: Books, page: nat) {
    && WellFormed(b.conv) && WellFormed(b.mem) && WellFormed(b.alloc)
    && Exclusive(b)
    && 10 <= page < 32 && PageWise(Meaning(b), Size(page))
  }

  // ----- pages and blocks -----

  lemma PageBaseIs(a: int, lo: int, page: int)
    requires page > 0 && lo % page == 0 && In(a, lo, page)
    ensures PageBase(a, page) == lo
  {
    ModUnique(lo, lo / page, 0, page);
    ModUnique(a, lo / page, a - lo, page);
  }

  /** A block of whole pages contains an address exactly if it contains the start of its page. */
  lemma PageInBlock(a: int, lo: int, size: int, page: int)
    requires page > 0 && lo % page == 0 && size % page == 0
    ensures In(a, lo, size) <==> In(PageBase(a, page), lo, size)
  {
    var p := PageBase(a, page);
    ModUnique(p, a / page, 0, page);
    assert 0 <= a % page < page;
    Multiples(lo, size, page);
    if p < lo {
      Multiples(p, lo, page);
    }
    if p < lo + size {
      Multiples(p, lo + size, page);
    }
  }

  lemma GrantKeepsPages(m: Memory, m': Memory, lo: int, size: int, tid: Word, page: int)
    requires page > 0 && lo % page == 0 && size % page == 0
    requires PageWise(m, page) && Granted(m, m', lo, size, tid)
    ensures PageWise(m', page)
  {
    forall a: int
      ensures m'(a) == m'(PageBase(a, page))
    {
      PageInBlock(a, lo, size, page);
    }
  }

  // ----- granting free memory -----

  /** A block of free memory is moved into the allocated list. */
  ghost predicate MovesBlock(b: Books, b': Books, lo: int, size: int, tid: Word) {
    && Added(b.alloc, b'.alloc, lo, lo + size - 1, tid)
    && (|| (Fills(b.conv, lo, size, ANYTHREAD) && Removed(b.conv, b'.conv, lo, lo + size - 1) && b'.mem == b.mem)
        || (Fills(b.mem, lo, size, ANYTHREAD) && Removed(b.mem, b'.mem, lo, lo + size - 1) && b'.conv == b.conv))
  }

  lemma MoveGrants(b: Books, b': Books, lo: int, size: int, tid: Word)
    requires Exclusive(b) && MovesBlock(b, b', lo, size, tid)
    ensures Exclusive(b') && Granted(Meaning(b), Meaning(b'), lo, size, tid)
  {
  }

  lemma MoveKeepsBooks(b: Books, b': Books, lo: int, size: int, tid: Word, page: nat)
    requires Consistent(b, page) && MovesBlock(b, b', lo, size, tid)
    requires WellFormed(b'.conv) && WellFormed(b'.mem) && WellFormed(b'.alloc)
    requires lo % Size(page) == 0 && size % Size(page) == 0
    ensures Consistent(b', page) && Granted(Meaning(b), Meaning(b'), lo, size, tid)
  {
    MoveGrants(b, b', lo, size, tid);
    GrantKeepsPages(Meaning(b), Meaning(b'), lo, size, tid, Size(page));
  }

  /** While a block is free, nobody owns any of it. */
  lemma FreeIsUnowned(b: Books, lo: int, size: int)
    requires Exclusive(b) && (Fills(b.conv, lo, size, ANYTHREAD) || Fills(b.mem, lo, size, ANYTHREAD))
    ensures Unowned(b.alloc, lo, lo + size - 1)
  {
  }

  // ----- the top of the address space -----

  /** Every address of this block may be had, and still the block cannot be granted: it ends at the top of the address
      space and its pages come from two pools. */
  lemma TopBlockRefused() returns (b: Books, lo: Word)
    ensures Consistent(b, 10) && lo % Size(11) == 0
    ensures AllUsable(Meaning(b), lo, Size(11), 7, false) && !Grantable(Meaning(b), lo, Size(11), 7, false)
  {
    lo := 0xFFFF_F800;
    var half := 0xFFFF_FC00;
    b := Books([Span(lo, half - 1, ANYTHREAD)], [Span(half, MAX, ANYTHREAD)], []);
    PageSizes();
    TopBlockMeaning(b, lo, half);
    forall a: int
      ensures Meaning(b)(a) == Meaning(b)(PageBase(a, 1024))
    {
      PageInBlock(a, lo, 1024, 1024);
      PageInBlock(a, half, 1024, 1024);
    }
    assert In(half, lo, 2048);
  }

  lemma PageSizes()
    ensures Size(10) == 1024 && Size(11) == 2048
  {
    assert Pow2(5) == 32 && Pow2(6) == 64;
    Pow2Add(5, 5);
    Pow2Add(5, 6);
  }

  lemma TopBlockMeaning(b: Books, lo: Word, half: Word)
    requires lo < half && b == Books([Span(lo, half - 1, ANYTHREAD)], [Span(half, MAX, ANYTHREAD)], [])
    ensures forall a {:trigger Meaning(b)(a)} ::
              Meaning(b)(a) == if lo <= a < half then Conventional else if half <= a < WORD then Other else Absent
    ensures Exclusive(b)
  {
    forall a: int
      ensures At(b.conv, a) == if lo <= a < half then Some(ANYTHREAD) else None
      ensures At(b.mem, a) == if half <= a < WORD then Some(ANYTHREAD) else None
    {
      assert Covers(b.conv[0], a) <==> lo <= a < half;
      assert Covers(b.mem[0], a) <==> half <= a < WORD;
    }
  }
}
