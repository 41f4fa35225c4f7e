/** sigma0, the physical memory manager: three region pools and the two forms of page allocation. */
module Sigma0 {
  import opened Words
  import opened Wrappers
  import opened Spans
  import opened Blocks
  import opened Regions
  import opened PhysicalMemory
  import opened Books
  import opened MemoryMap

  // ----- what the lists offer, in terms of the memory state -----

  ghost predicate Offered(ss: seq<Span>, addr: int, size: int, tid: Word) {
    exists i :: 0 <= i < |ss| && Offers(ss, i, addr, size, tid)
  }

  ghost predicate OfferedPage(ss: seq<Span>, a: Word, size: Word, tid: Word) {
    exists i :: 0 <= i < |ss| && OffersPage(ss, i, a, size, tid)
  }

  /** A list of free memory offers a block exactly when it holds all of it. */
  lemma OfferedIsFilled(ss: seq<Span>, addr: int, size: int, tid: Word)
    requires WellFormed(ss) && size > 0
    ensures Offered(ss, addr, size, tid) <==> exists o: Word :: OwnerAllows(o, tid) && Fills(ss, addr, size, o)
  {
    if i :| 0 <= i < |ss| && Offers(ss, i, addr, size, tid) {
      InsideIsFilled(ss, i, addr, size);
      assert Fills(ss, addr, size, ss[i].owner);
    }
    if o: Word :| OwnerAllows(o, tid) && Fills(ss, addr, size, o) {
      var i := FilledIsInside(ss, addr, size, o);
      assert Offers(ss, i, addr, size, tid);
    }
  }

  lemma FreeOffered(b: Books, ss: seq<Span>, addr: int, size: int, tid: Word)
    requires Exclusive(b) && (ss == b.conv || ss == b.mem) && WellFormed(ss) && size > 0
    ensures Offered(ss, addr, size, tid) <==> Fills(ss, addr, size, ANYTHREAD)
  {
    OfferedIsFilled(ss, addr, size, tid);
    assert At(ss, addr).Some? ==> At(ss, addr) == Some(ANYTHREAD);
    if o: Word :| OwnerAllows(o, tid) && Fills(ss, addr, size, o) {
      assert At(ss, addr) == Some(o);
    }
  }

  /** One of the pools offers the whole block at once. */
  ghost predicate FastPath(b: Books, lo: int, size: int, tid: Word, only: bool) {
    Offered(b.conv, lo, size, ANYTHREAD) || (!only && Offered(b.mem, lo, size, ANYTHREAD)) || Offered(b.alloc, lo, size, tid)
  }

  /** The fast path is exactly the blocks that have one usable status throughout. */
  lemma FastPathIsUniform(b: Books, lo: int, size: int, tid: Word, only: bool, page: nat)
    requires Consistent(b, page) && size > 0
    ensures FastPath(b, lo, size, tid, only) <==> AllUsable(Meaning(b), lo, size, tid, only) && Uniform(Meaning(b), lo, size)
  {
    FreeOffered(b, b.conv, lo, size, ANYTHREAD);
    FreeOffered(b, b.mem, lo, size, ANYTHREAD);
    OfferedIsFilled(b.alloc, lo, size, tid);
    var m := Meaning(b);
    if AllUsable(m, lo, size, tid, only) && Uniform(m, lo, size) {
      assert In(lo, lo, size) && Usable(m(lo), tid, only);
      UniformIsFilled(b, lo, size);
    }
    if FastPath(b, lo, size, tid, only) {
      FilledIsUniform(b, lo, size, tid, only);
    }
  }

  lemma UniformIsFilled(b: Books, lo: int, size: int)
    requires Exclusive(b) && size > 0 && Uniform(Meaning(b), lo, size)
    ensures StatusOf(b, lo).Conventional? ==> Fills(b.conv, lo, size, ANYTHREAD)
    ensures StatusOf(b, lo).Other? ==> Fills(b.mem, lo, size, ANYTHREAD)
    ensures StatusOf(b, lo).Owned? ==> Fills(b.alloc, lo, size, StatusOf(b, lo).owner)
  {
    forall a | lo <= a < lo + size
      ensures StatusOf(b, lo).Conventional? ==> At(b.conv, a) == Some(ANYTHREAD)
      ensures StatusOf(b, lo).Other? ==> At(b.mem, a) == Some(ANYTHREAD)
      ensures StatusOf(b, lo).Owned? ==> At(b.alloc, a) == Some(StatusOf(b, lo).owner)
    {
      assert In(a, lo, size) && Meaning(b)(a) == Meaning(b)(lo);
    }
  }

  lemma FilledIsUniform(b: Books, lo: int, size: int, tid: Word, only: bool)
    requires Exclusive(b) && size > 0
    requires || Fills(b.conv, lo, size, ANYTHREAD) || (!only && Fills(b.mem, lo, size, ANYTHREAD))
             || (exists o: Word :: OwnerAllows(o, tid) && Fills(b.alloc, lo, size, o))
    ensures AllUsable(Meaning(b), lo, size, tid, only) && Uniform(Meaning(b), lo, size)
  {
  }

  /** One of the pools gives the page to the thread. */
  ghost predicate PageOffered(b: Books, a: Word, size: Word, tid: Word, only: bool) {
    OfferedPage(b.conv, a, size, tid) || OfferedPage(b.alloc, a, size, tid) || (!only && OfferedPage(b.mem, a, size, tid))
  }

  /** Below the top of the address space, the page walk finds exactly the usable pages. */
  lemma PageOfferedIsUsable(b: Books, a: Word, tid: Word, only: bool, page: nat)
    requires Consistent(b, page) && a % Size(page) == 0 && a + Size(page) < WORD
    ensures PageOffered(b, a, Size(page), tid, only) <==> AllUsable(Meaning(b), a, Size(page), tid, only)
    ensures Uniform(Meaning(b), a, Size(page))
    ensures OfferedPage(b.conv, a, Size(page), tid) ==> Fills(b.conv, a, Size(page), ANYTHREAD)
    ensures OfferedPage(b.mem, a, Size(page), tid) ==> Fills(b.mem, a, Size(page), ANYTHREAD)
  {
    var size := Size(page);
    var m := Meaning(b);
    forall x | In(x, a, size)
      ensures m(x) == m(a)
    {
      PageBaseIs(x, a, size);
    }
    FreeOffered(b, b.conv, a, size, tid);
    FreeOffered(b, b.mem, a, size, tid);
    FreeOffered(b, b.conv, a, size, ANYTHREAD);
    FreeOffered(b, b.mem, a, size, ANYTHREAD);
    FastPathIsUniform(b, a, size, tid, only, page);
    OfferedHere(b.conv, a, size, tid);
    OfferedHere(b.mem, a, size, tid);
    OfferedHere(b.alloc, a, size, tid);
  }

  /** Below the top no region that has the page is skipped. */
  lemma OfferedHere(ss: seq<Span>, a: Word, size: Word, tid: Word)
    requires a + size < WORD
    ensures OfferedPage(ss, a, size, tid) <==> Offered(ss, a, size, tid)
  {
    if i :| 0 <= i < |ss| && Offers(ss, i, a, size, tid) {
      assert OffersPage(ss, i, a, size, tid);
    }
  }

  /** At the top only a region that spans the whole address space is not skipped, and it offers any block there is. */
  lemma TopPageOffered(ss: seq<Span>, a: Word, size: Word, tid: Word, lo: Word, blockSize: int)
    requires a + size == WORD && OfferedPage(ss, a, size, tid) && lo + blockSize == WORD
    ensures Offered(ss, lo, blockSize, tid)
  {
    var i :| 0 <= i < |ss| && OffersPage(ss, i, a, size, tid);
    assert Offers(ss, i, lo, blockSize, tid);
  }

  /** So the walk refuses the topmost page of a block that the fast path refused. */
  lemma TopPageRefused(b: Books, a: Word, size: Word, tid: Word, only: bool, lo: Word, blockSize: int)
    requires Exclusive(b) && WellFormed(b.conv) && WellFormed(b.mem)
    requires a + size == WORD && lo + blockSize == WORD && blockSize > 0 && !FastPath(b, lo, blockSize, tid, only)
    ensures !PageOffered(b, a, size, tid, only)
  {
    FreeOffered(b, b.conv, lo, blockSize, tid);
    FreeOffered(b, b.mem, lo, blockSize, tid);
    FreeOffered(b, b.conv, lo, blockSize, ANYTHREAD);
    FreeOffered(b, b.mem, lo, blockSize, ANYTHREAD);
    forall ss: seq<Span> | OfferedPage(ss, a, size, tid)
      ensures Offered(ss, lo, blockSize, tid)
    {
      TopPageOffered(ss, a, size, tid, lo, blockSize);
    }
  }

  class Sigma0 {
    /** log2 of the smallest page size. */
    const minPgsize: nat
    const conv: Pool
    const mem: Pool
    const alloc: Pool

    /** Three empty pools. */
    constructor (minPgsize: nat)
      requires 10 <= minPgsize < 32
      ensures Pools() && View() == Books([], [], []) && this.minPgsize == minPgsize
      ensures fresh(conv.Repr) && fresh(mem.Repr) && fresh(alloc.Repr)
    {
      this.minPgsize := minPgsize;
      conv := new Pool();
      mem := new Pool();
      alloc := new Pool();
    }

    /** The pools' footprints grow by new objects only. */
    twostate predicate Grows()
      reads conv, mem, alloc
    {
      fresh(conv.Repr - old(conv.Repr)) && fresh(mem.Repr - old(mem.Repr)) && fresh(alloc.Repr - old(alloc.Repr))
    }

    /** The three pools are well-formed lists that share no node. */
    ghost predicate Pools()
      reads conv, mem, alloc, conv.Repr, mem.Repr, alloc.Repr
    {
      && conv.Valid() && mem.Valid() && alloc.Valid()
      && conv.Repr !! mem.Repr && conv.Repr !! alloc.Repr && mem.Repr !! alloc.Repr
      && 10 <= minPgsize < 32
    }

    ghost function View(): Books
      reads conv, mem, alloc
    {
      Books(conv.spans, mem.spans, alloc.spans)
    }

    ghost predicate Valid()
      reads conv, mem, alloc, conv.Repr, mem.Repr, alloc.Repr
    {
      Pools() && Consistent(View(), minPgsize)
    }

    /** The status of every address. */
    ghost function Mem(): Memory
      reads conv, mem, alloc
    {
      Meaning(View())
    }

    /** Move the block that was just taken out of `pool` into the allocated pool. */
    method Record(lo: Word, high: Word, tid: Word, ghost was: Books)
      requires Pools() && lo < high && lo % Size(minPgsize) == 0 && (high + 1 - lo) % Size(minPgsize) == 0
      requires Consistent(was, minPgsize) && alloc.spans == was.alloc
      requires || (Fills(was.conv, lo, high + 1 - lo, ANYTHREAD) && Removed(was.conv, conv.spans, lo, high) && mem.spans == was.mem)
               || (Fills(was.mem, lo, high + 1 - lo, ANYTHREAD) && Removed(was.mem, mem.spans, lo, high) && conv.spans == was.conv)
      modifies alloc.Repr
      ensures Valid() && fresh(alloc.Repr - old(alloc.Repr))
      ensures Granted(Meaning(was), Mem(), lo, high + 1 - lo, tid)
    {
      FreeIsUnowned(was, lo, high + 1 - lo);
      PageEdges(lo, high, minPgsize);
      alloc.Insert(lo, high, tid);
      MoveKeepsBooks(was, View(), lo, high + 1 - lo, tid, minPgsize);
    }

    /** One page of the slow path in a pool of free memory. */
    method FreePage(pool: Pool, a: Word, tid: Word, take: bool) returns (found: bool)
      requires Valid() && (pool == conv || pool == mem)
      requires a % Size(minPgsize) == 0 && (take ==> a + Size(minPgsize) < WORD)
      modifies conv.Repr, mem.Repr, alloc.Repr
      ensures Valid() && Grows()
      ensures found <==> OfferedPage(old(pool.spans), a, Size(minPgsize), tid)
      ensures !(found && take) ==> View() == old(View())
      ensures found && take ==> Granted(old(Mem()), Mem(), a, Size(minPgsize), tid)
    {
      ghost var was := View();
      if take {
        PageOfferedIsUsable(was, a, tid, false, minPgsize);
        ModUnique(Size(minPgsize), 1, 0, Size(minPgsize));
      }
      found := pool.PageStep(a, minPgsize, tid, take);
      if found && take {
        var aEnd := Add(a, Size(minPgsize));
        Record(a, Sub(aEnd, 1), tid, was);
      }
    }

    /** One page of the slow path: find a pool that gives `tid` the page and, in the allocation phase, take it. */
    method PageOf(a: Word, tid: Word, only: bool, take: bool) returns (found: bool)
      requires Valid() && a % Size(minPgsize) == 0 && (take ==> a + Size(minPgsize) < WORD)
      modifies conv.Repr, mem.Repr, alloc.Repr
      ensures Valid() && Grows()
      ensures found <==> PageOffered(old(View()), a, Size(minPgsize), tid, only)
      ensures !(found && take) ==> View() == old(View())
      ensures found && take ==> Granted(old(Mem()), Mem(), a, Size(minPgsize), tid)
    {
      found := FreePage(conv, a, tid, take);
      if found {
        return;
      }
      found := alloc.PageStep(a, minPgsize, tid, false);
      if found {
        HeldIsGranted(View(), a, minPgsize, tid);
        return;
      }
      if !only {
        found := FreePage(mem, a, tid, take);
      }
    }

    /** The slow path has dealt with the block from `lo` up to `a`: all of it is usable, or all of it is granted. */
    ghost predicate Walked(was: Books, lo: int, a: int, tid: Word, only: bool, take: bool)
      reads conv, mem, alloc
    {
      if take then Granted(Meaning(was), Mem(), lo, a - lo, tid)
      else View() == was && AllUsable(Meaning(was), lo, a - lo, tid, only)
    }

    /** One page of the slow path. */
    method WalkPage(tid: Word, lo: Word, a: Word, only: bool, take: bool, ghost size: Word, ghost was: Books) returns (found: bool)
      requires Valid() && Walked(was, lo, a, tid, only, take)
      requires lo <= a && a % Size(minPgsize) == 0 && a + Size(minPgsize) <= lo + size <= WORD
      requires !take ==> !FastPath(was, lo, size, tid, only)
      requires take ==> lo + size < WORD && AllUsable(Meaning(was), lo, size, tid, only)
      modifies conv.Repr, mem.Repr, alloc.Repr
      ensures Valid() && Grows()
      ensures if found then a + Size(minPgsize) < WORD && Walked(was, lo, a + Size(minPgsize), tid, only, take)
              else !take && View() == was && !(lo + size < WORD && AllUsable(Meaning(was), lo, size, tid, only))
    {
      ghost var m, now, page := Meaning(was), Mem(), Size(minPgsize);
      UsableJoin(m, lo, a - lo, lo + size - a, tid, only);
      UsableJoin(m, a, page, lo + size - a - page, tid, only);
      UsableJoin(m, lo, a - lo, page, tid, only);
      if take {
        RestStaysUsable(m, now, lo, a - lo, page, tid, only);
      }
      if a + page < WORD {
        PageOfferedIsUsable(View(), a, tid, only, minPgsize);
      } else {
        TopPageRefused(View(), a, page, tid, only, lo, size);
      }
      found := PageOf(a, tid, only, take);
      if found && take {
        GrantsJoin(m, now, Mem(), lo, a - lo, page, tid);
      }
    }

    /** The slow path: go through the block page by page, either to check it or to take it. */
    method Walk(tid: Word, lo: Word, log2size: nat, only: bool, take: bool) returns (ok: bool)
      requires Valid() && minPgsize <= log2size < 32 && lo % Size(log2size) == 0
      requires !take ==> !FastPath(View(), lo, Size(log2size), tid, only)
      requires take ==> lo + Size(log2size) < WORD && AllUsable(Mem(), lo, Size(log2size), tid, only)
      modifies conv.Repr, mem.Repr, alloc.Repr
      ensures Valid() && Grows()
      ensures !take ==> View() == old(View())
      ensures !take ==> (ok <==> lo + Size(log2size) < WORD && AllUsable(old(Mem()), lo, Size(log2size), tid, only))
      ensures take ==> ok && Granted(old(Mem()), Mem(), lo, Size(log2size), tid)
    {
      ghost var was, size, page := View(), Size(log2size), Size(minPgsize);
      PagesOfBlock(lo, log2size, minPgsize);
      var high := Sub(Add(lo, Size(log2size)), 1);
      var a: Word := lo;
      while a < high
        invariant Valid() && Grows() && lo <= a <= lo + size && a % page == 0
        invariant Walked(was, lo, a, tid, only, take)
        decreases lo + size - a
      {
        NextPage(a, lo + size, page);
        var found := WalkPage(tid, lo, a, only, take, size, was);
        if !found {
          return false;
        }
        a := Add(a, Size(minPgsize));
      }
      NextPage(a, lo + size, page);
      return true;
    }

    /** Take the whole block out of one region of a pool of free memory, if there is one that holds it. */
    method FreeBlock(pool: Pool, tid: Word, lo: Word, log2size: nat) returns (ok: bool)
      requires Valid() && (pool == conv || pool == mem)
      requires minPgsize <= log2size < 32 && lo % Size(log2size) == 0
      modifies conv.Repr, mem.Repr, alloc.Repr
      ensures Valid() && Grows()
      ensures ok <==> Offered(old(pool.spans), lo, Size(log2size), ANYTHREAD)
      ensures !ok ==> View() == old(View())
      ensures ok ==> Granted(old(Mem()), Mem(), lo, Size(log2size), tid)
    {
      ghost var was := View();
      PagesOfBlock(lo, log2size, minPgsize);
      FreeOffered(was, pool.spans, lo, Size(log2size), ANYTHREAD);
      var high := Sub(Add(lo, Size(log2size)), 1);
      var fp := pool.TryAllocate(lo, log2size);
      ok := fp.Fpage?;
      if ok {
        Record(lo, high, tid, was);
      }
    }

    /** The fast path: a free pool gives the whole block at once, or the thread already holds it. */
    method Fast(tid: Word, lo: Word, log2size: nat, only: bool) returns (ok: bool)
      requires Valid() && minPgsize <= log2size < 32 && lo % Size(log2size) == 0
      modifies conv.Repr, mem.Repr, alloc.Repr
      ensures Valid() && Grows()
      ensures ok <==> FastPath(old(View()), lo, Size(log2size), tid, only)
      ensures !ok ==> View() == old(View())
      ensures ok ==> Granted(old(Mem()), Mem(), lo, Size(log2size), tid)
    {
      ok := FreeBlock(conv, tid, lo, log2size);
      if ok {
        return;
      }
      if !only {
        ok := FreeBlock(mem, tid, lo, log2size);
        if ok {
          return;
        }
      }
      ok := Held(tid, lo, log2size);
    }

    /** Does the thread hold the whole block already? */
    method Held(tid: Word, lo: Word, log2size: nat) returns (ok: bool)
      requires Valid() && minPgsize <= log2size < 32 && lo % Size(log2size) == 0
      modifies alloc`ptr
      ensures Valid() && View() == old(View())
      ensures ok <==> Offered(View().alloc, lo, Size(log2size), tid)
      ensures ok ==> Granted(Mem(), Mem(), lo, Size(log2size), tid)
    {
      ok := alloc.HoldsFor(lo, log2size, tid);
      if ok {
        HeldBlockIsGranted(View(), lo, Size(log2size), tid);
      }
    }

    /** The slow path: check all pages, and only then take them. */
    method Slow(tid: Word, lo: Word, log2size: nat, only: bool) returns (ok: bool)
      requires Valid() && minPgsize <= log2size < 32 && lo % Size(log2size) == 0
      requires !FastPath(View(), lo, Size(log2size), tid, only)
      modifies conv.Repr, mem.Repr, alloc.Repr
      ensures Valid() && Grows()
      ensures ok <==> lo + Size(log2size) < WORD && AllUsable(old(Mem()), lo, Size(log2size), tid, only)
      ensures !ok ==> View() == old(View())
      ensures ok ==> Granted(old(Mem()), Mem(), lo, Size(log2size), tid)
    {
      for phase := 0 to 2
        invariant Valid() && Grows()
        invariant phase <= 1 ==> View() == old(View())
        invariant phase >= 1 ==> lo + Size(log2size) < WORD && AllUsable(old(Mem()), lo, Size(log2size), tid, only)
        invariant phase == 2 ==> Granted(old(Mem()), Mem(), lo, Size(log2size), tid)
      {
        ok := Walk(tid, lo, log2size, only, phase == 1);
        if !ok {
          return;
        }
      }
      return true;
    }

    /** Grant the block at `lo`: at once if possible, and otherwise page by page. */
    method AllocateBlock(tid: Word, lo: Word, log2size: nat, only: bool) returns (ok: bool)
      requires Valid() && minPgsize <= log2size < 32 && lo % Size(log2size) == 0
      modifies conv.Repr, mem.Repr, alloc.Repr
      ensures Valid() && Grows()
      ensures ok <==> Grantable(old(Mem()), lo, Size(log2size), tid, only)
      ensures !ok ==> View() == old(View())
      ensures ok ==> Granted(old(Mem()), Mem(), lo, Size(log2size), tid)
    {
      FastPathIsUniform(View(), lo, Size(log2size), tid, only, minPgsize);
      ok := Fast(tid, lo, log2size, only);
      if !ok {
        ok := Slow(tid, lo, log2size, only);
      }
    }

    /** Allocate the block that contains `addr`. The answer is the base of the mapped block. */
    method AllocatePageAt(tid: Word, addr: Word, log2size: nat, onlyConventional: bool) returns (item: Option<Word>)
      requires Valid() && log2size < 32
      modifies conv.Repr, mem.Repr, alloc.Repr
      ensures Valid() && Grows()
      ensures Step(old(Mem()), AtAddress(tid, addr, log2size, onlyConventional), Mem(), item, minPgsize)
    {
      if log2size < minPgsize {
        return None;
      }
      var lo := AlignDown(addr, Size(log2size));
      AlignDownIsFloor(addr, Size(log2size));
      var ok := AllocateBlock(tid, lo, log2size, onlyConventional);
      return if ok then Some(lo) else None;
    }

    /** Allocate a block of conventional memory from anywhere. */
    method AllocatePageAnywhere(tid: Word, log2size: nat) returns (item: Option<Word>)
      requires Valid() && log2size < 32
      modifies conv.Repr, mem.Repr, alloc.Repr
      ensures Valid() && Grows()
      ensures Step(old(Mem()), Anywhere(tid, log2size), Mem(), item, minPgsize)
    {
      if log2size < minPgsize {
        return None;
      }
      ghost var was := View();
      SomeOfferedIsConventional(was, Size(log2size), minPgsize);
      var fp := conv.TryAllocateAny(log2size);
      if fp.Nilpage? {
        return None;
      }
      PagesOfBlock(fp.base, log2size, minPgsize);
      FreeOffered(was, was.conv, fp.base, Size(log2size), ANYTHREAD);
      Record(fp.base, Sub(Add(fp.base, Size(log2size)), 1), tid, was);
      FilledIsUniform(was, fp.base, Size(log2size), tid, true);
      return Some(fp.base);
    }

    /** Take a range of pages out of all three pools. */
    method Clean(low: Word, high: Word)
      requires Pools() && Cut(low, high)
      modifies conv.Repr, mem.Repr, alloc.Repr
      ensures Pools() && Grows() && Cleaned(old(View()), View(), low, high)
    {
      conv.Remove(low, high);
      mem.Remove(low, high);
      alloc.Remove(low, high);
    }

    /** Put a range of pages that is in no pool into the pool for its descriptor's type. */
    method Enter(d: MemoryDesc, low: Word, high: Word, kernel: Word)
      requires Pools() && Proper(Span(low, high, 0)) && d.kind < 16
      requires Unowned(conv.spans, low, high) && Unowned(mem.spans, low, high) && Unowned(alloc.spans, low, high)
      modifies conv.Repr, mem.Repr, alloc.Repr
      ensures Pools() && Grows() && Entered(old(View()), View(), low, high, DescStatus(d, kernel))
    {
      if DescType(d) % 16 == BOOTLOADERSPECIFIC || DescType(d) % 16 == ARCHITECTURESPECIFIC {
        mem.Insert(low, high, ANYTHREAD);
      } else {
        match DescType(d) {
          case 0 =>
          case 1 => conv.Insert(low, high, ANYTHREAD);
          case 2 => alloc.Insert(low, high, kernel);
          case 3 => mem.Insert(low, high, ANYTHREAD);
          case 4 => alloc.Insert(low, high, ANYTHREAD);
          case _ =>
        }
      }
    }

    /** Process one memory descriptor that is not virtual. */
    method ApplyDescriptor(d: MemoryDesc, kernel: Word)
      requires Valid() && ValidDesc(d)
      modifies conv.Repr, mem.Repr, alloc.Repr
      ensures Valid() && Grows()
      ensures Described(old(Mem()), Mem(), d, kernel, Size(minPgsize))
    {
      ghost var was := View();
      DescRange(d, minPgsize);
      var low := PageStart(DescLow(d), minPgsize);
      var high := Sub(PageEnd(DescHigh(d), minPgsize), 1);
      ghost var clean := Reclassify(d, low, high, kernel);
      DescriptorApplied(was, clean, View(), d, kernel, minPgsize);
    }

    /** Takes a range out of all pools and enters it into at most one. */
    method Reclassify(d: MemoryDesc, low: Word, high: Word, kernel: Word) returns (ghost clean: Books)
      requires Pools() && Cut(low, high) && Proper(Span(low, high, 0)) && d.kind < 16
      modifies conv.Repr, mem.Repr, alloc.Repr
      ensures Pools() && Grows()
      ensures Cleaned(old(View()), clean, low, high) && Entered(clean, View(), low, high, DescStatus(d, kernel))
    {
      ghost var was := View();
      Clean(low, high);
      clean := View();
      CleanedIsUnowned(was, clean, low, high);
      Enter(d, low, high, kernel);
    }

    /** Fill the empty pools from the memory descriptors: at first all memory is free and not conventional, and then
        each descriptor in turn reclassifies its pages. */
    method InitFromDescriptors(ds: seq<MemoryDesc>, kernel: Word)
      requires Pools() && View() == Books([], [], [])
      requires forall i :: 0 <= i < |ds| && !ds[i].isVirtual ==> ValidDesc(ds[i])
      modifies conv.Repr, mem.Repr, alloc.Repr
      ensures Valid() && Grows()
      ensures Classifies(Mem(), ds, |ds|, Size(minPgsize), kernel)
    {
      mem.Insert(0, MAX, ANYTHREAD);
      AllOther(View(), minPgsize);
      for n := 0 to |ds|
        invariant Valid() && Grows()
        invariant Classifies(Mem(), ds, n, Size(minPgsize), kernel)
      {
        ghost var now := Mem();
        if !ds[n].isVirtual {
          ApplyDescriptor(ds[n], kernel);
        }
        NextDescriptor(now, Mem(), ds, n, Size(minPgsize), kernel);
      }
    }

    /** Give a server the free pages between the page of `low` and the page limit above `high`. A limit that wraps
        registers nothing. */
    method RegisterMemory(low: Word, high: Word, tid: Word)
      requires Valid()
      modifies conv.Repr, mem.Repr, alloc.Repr
      ensures Valid() && Grows()
      ensures Registered(old(Mem()), Mem(), PageStart(low, minPgsize), PageEnd(high, minPgsize), tid)
    {
      PageLimits(low, high, minPgsize);
      RegisterPages(PageStart(low, minPgsize), PageEnd(high, minPgsize), tid);
    }

    method RegisterPages(lo: Word, hi: Word, tid: Word)
      requires Valid() && lo % Size(minPgsize) == 0 && hi % Size(minPgsize) == 0 && Size(minPgsize) >= 2
      modifies conv.Repr, mem.Repr, alloc.Repr
      ensures Valid() && Grows()
      ensures Registered(old(Mem()), Mem(), lo, hi, tid)
    {
      var addr: Word := lo;
      while addr < hi
        invariant Valid() && Grows() && addr % Size(minPgsize) == 0 && (lo <= addr <= hi || addr == lo)
        invariant Registered(old(Mem()), Mem(), lo, addr, tid)
        decreases hi - addr
      {
        addr := RegisterPage(addr, hi, tid, lo, old(Mem()));
      }
    }

    /** Give a server one page behind those that were registered before. */
    method RegisterPage(addr: Word, ghost hi: Word, tid: Word, ghost lo: Word, ghost was: Memory) returns (next: Word)
      requires Valid() && addr % Size(minPgsize) == 0 && hi % Size(minPgsize) == 0 && Size(minPgsize) >= 2 && lo <= addr < hi
      requires Registered(was, Mem(), lo, addr, tid)
      modifies conv.Repr, mem.Repr, alloc.Repr
      ensures Valid() && Grows()
      ensures addr < next <= hi && next % Size(minPgsize) == 0 && Registered(was, Mem(), lo, next, tid)
    {
      NextPage(addr, hi, Size(minPgsize));
      ghost var now := Mem();
      var item := AllocatePageAt(tid, addr, minPgsize, false);
      PageRegisters(now, Mem(), tid, addr, item, minPgsize);
      RegisteredJoin(was, now, Mem(), lo, addr, addr + Size(minPgsize), tid);
      next := Add(addr, Size(minPgsize));
    }

    /** Give one of the initial servers its memory; one without an end is skipped. */
    method InitServer(ss: seq<Server>, n: nat, ghost m: Memory)
      requires Valid() && n < |ss| && ServersDone(m, Mem(), ss, n, minPgsize)
      modifies conv.Repr, mem.Repr, alloc.Repr
      ensures Valid() && Grows() && ServersDone(m, Mem(), ss, n + 1, minPgsize)
    {
      ghost var now := Mem();
      if ss[n].high != 0 {
        RegisterMemory(ss[n].low, ss[n].high, ss[n].tid);
      }
      NextServer(m, ss, n, minPgsize, now, Mem());
    }

    /** Give the initial servers their memory. */
    method InitServers(ss: seq<Server>)
      requires Valid()
      modifies conv.Repr, mem.Repr, alloc.Repr
      ensures Valid() && Grows()
      ensures ServersDone(old(Mem()), Mem(), ss, |ss|, minPgsize)
    {
      ghost var m := Mem();
      for n := 0 to |ss|
        invariant Valid() && Grows()
        invariant ServersDone(m, Mem(), ss, n, minPgsize)
      {
        InitServer(ss, n, m);
      }
    }

    /** Answer a sequence of requests. `ms` records the memory before each request and at the end. */
    method Serve(rs: seq<Request>) returns (replies: seq<Option<Word>>, ghost ms: seq<Memory>)
      requires Valid() && forall i :: 0 <= i < |rs| ==> rs[i].log2size < 32
      modifies conv.Repr, mem.Repr, alloc.Repr
      ensures Valid() && Grows()
      ensures Run(ms, rs, replies, minPgsize) && ms[0] == old(Mem()) && ms[|rs|] == Mem()
    {
      replies, ms := [], [Mem()];
      for n := 0 to |rs|
        invariant Valid() && Grows() && |replies| == n && |ms| == n + 1
        invariant ms[0] == old(Mem()) && ms[n] == Mem()
        invariant Run(ms, rs[..n], replies, minPgsize)
      {
        var item;
        match rs[n] {
          case AtAddress(tid, addr, log2size, only) =>
            item := AllocatePageAt(tid, addr, log2size, only);
          case Anywhere(tid, log2size) =>
            item := AllocatePageAnywhere(tid, log2size);
        }
        RunGrows(ms, rs[..n], replies, rs[n], Mem(), item, minPgsize);
        assert rs[..n + 1] == rs[..n] + [rs[n]];
        replies, ms := replies + [item], ms + [Mem()];
      }
      assert rs[..|rs|] == rs;
    }
  }

  /** Conventional memory up to the last page. */
  lemma TopBlockIsFree(m: Memory, ds: seq<MemoryDesc>, lo: Word)
    requires ds == [MemoryDesc(CONVENTIONAL, 0, false, 0, 0x3F_FFFE)] && Classifies(m, ds, 1, Size(10), 7) && lo == 0xFFFF_F800
    ensures AllUsable(m, lo, Size(11), 7, false) && !Grantable(m, lo, Size(11), 7, false)
  {
    PageSizes();
    forall a | In(a, lo, 2048)
      ensures m(a) == if a < 0xFFFF_FC00 then Conventional else Other
    {
      assert Classified(ds, 0, a, 1024, 7) == Other;
      assert DescCovers(ds[0], a, 1024) <==> a < 0xFFFF_FC00;
    }
    assert In(0xFFFF_FC00, lo, 2048);
  }

  method FromDescriptors(ds: seq<MemoryDesc>, kernel: Word) returns (server: Sigma0)
    requires forall i :: 0 <= i < |ds| && !ds[i].isVirtual ==> ValidDesc(ds[i])
    ensures server.Valid() && server.minPgsize == 10
    ensures fresh(server.conv.Repr) && fresh(server.mem.Repr) && fresh(server.alloc.Repr)
    ensures Classifies(server.Mem(), ds, |ds|, Size(10), kernel)
  {
    server := new Sigma0(10);
    server.InitFromDescriptors(ds, kernel);
  }

  /** With such memory, the block of the last two pages is refused although both are free. */
  method RefuseTopBlock(lo: Word) returns (server: Sigma0, item: Option<Word>, ghost m: Memory)
    requires lo == 0xFFFF_F800
    ensures lo % Size(11) == 0 && AllUsable(m, lo, Size(11), 7, false)
    ensures item.None? && Step(m, AtAddress(7, lo, 11, false), server.Mem(), item, 10)
  {
    var ds := [MemoryDesc(CONVENTIONAL, 0, false, 0, 0x3F_FFFE)];
    server := FromDescriptors(ds, 7);
    m := server.Mem();
    TopBlockIsFree(m, ds, lo);
    PageSizes();
    AlignDownIsFloor(lo, Size(11));
    item := server.AllocatePageAt(7, lo, 11, false);
  }

  /** Cleaning and entering a descriptor's pages keeps the books consistent and reclassifies exactly those pages. */
  lemma DescriptorApplied(b: Books, b1: Books, b2: Books, d: MemoryDesc, kernel: Word, page: nat)
    requires Consistent(b, page) && ValidDesc(d)
    requires WellFormed(b2.conv) && WellFormed(b2.mem) && WellFormed(b2.alloc)
    requires var lo, hi := PageBase(DescLow(d), Size(page)), PageBase(DescHigh(d), Size(page)) + Size(page) - 1;
             Cleaned(b, b1, lo, hi) && Entered(b1, b2, lo, hi, DescStatus(d, kernel))
    ensures Consistent(b2, page)
    ensures Described(Meaning(b), Meaning(b2), d, kernel, Size(page))
  {
    var lo, end := PageBase(DescLow(d), Size(page)), PageBase(DescHigh(d), Size(page)) + Size(page);
    DescEdges(d, page);
    EnterReclassifies(b, b1, b2, lo, end - 1, DescStatus(d, kernel));
    ReclassifyKeepsPages(Meaning(b), Meaning(b2), lo, end - lo, DescStatus(d, kernel), Size(page));
    DescCoversIn(d, Size(page));
  }

  lemma DescCoversIn(d: MemoryDesc, page: int)
    requires page > 0
    ensures var lo, end := PageBase(DescLow(d), page), PageBase(DescHigh(d), page) + page;
            forall a {:trigger DescCovers(d, a, page)} :: DescCovers(d, a, page) <==> In(a, lo, end - lo)
  {
  }

  lemma AllOther(b: Books, page: nat)
    requires WellFormed(b.mem) && b.conv == [] && b.alloc == [] && Added([], b.mem, 0, MAX, ANYTHREAD) && 10 <= page < 32
    ensures Consistent(b, page)
    ensures forall a :: Meaning(b)(a) == if 0 <= a < WORD then Other else Absent
  {
    var pg := Size(page);
    forall a: int
      ensures 0 <= PageBase(a, pg) < WORD <==> 0 <= a < WORD
    {
      ModUnique(0, 0, 0, pg);
      PageInBlock(a, 0, WORD, pg);
    }
  }

  /** The range of pages the pools work on for a descriptor. */
  lemma DescRange(d: MemoryDesc, page: nat)
    requires ValidDesc(d) && 10 <= page < 32
    ensures 0 <= DescLow(d) <= DescHigh(d) <= MAX
    ensures var low, high := PageStart(DescLow(d), page), Sub(PageEnd(DescHigh(d), page), 1);
            && low == PageBase(DescLow(d), Size(page)) && high == PageBase(DescHigh(d), Size(page)) + Size(page) - 1
            && Cut(low, high) && Proper(Span(low, high, 0))
  {
    DescPages(d, page);
    DescEdges(d, page);
  }

  lemma DescEdges(d: MemoryDesc, page: nat)
    requires ValidDesc(d) && 10 <= page < 32
    ensures var lo, end := PageBase(DescLow(d), Size(page)), PageBase(DescHigh(d), Size(page)) + Size(page);
            lo % Size(page) == 0 && (end - lo) % Size(page) == 0 && lo % 2 == 0 && end % 2 == 0 && lo < end
  {
    DescPages(d, page);
    var pg := Size(page);
    AlignDownIsFloor(DescLow(d), pg);
    AlignDownIsFloor(DescHigh(d), pg);
    ModUnique(pg, 1, 0, pg);
    var lo, base := PageBase(DescLow(d), pg), PageBase(DescHigh(d), pg);
    Multiples(base, pg, pg);
    Multiples(base + pg, lo, pg);
    Pow2IsBlock(page);
    MultipleOfMultiple(lo, pg, 2);
    MultipleOfMultiple(base + pg, pg, 2);
  }

  lemma HeldBlockIsGranted(b: Books, lo: int, size: int, tid: Word)
    requires Exclusive(b) && WellFormed(b.alloc) && size > 0 && Offered(b.alloc, lo, size, tid)
    ensures Granted(Meaning(b), Meaning(b), lo, size, tid)
  {
  }

  /** Some region of the conventional pool can give a block exactly when some aligned block is conventional throughout. */
  lemma SomeOfferedIsConventional(b: Books, size: int, page: nat)
    requires Consistent(b, page) && size > 0
    ensures (exists i :: 0 <= i < |b.conv| && OffersAny(b.conv, i, size)) <==> (exists lo: Word :: ConventionalBlock(Meaning(b), lo, size))
  {
    if i :| 0 <= i < |b.conv| && OffersAny(b.conv, i, size) {
      var lo := OfferedBlock(b, i, size);
    }
    if lo: Word :| ConventionalBlock(Meaning(b), lo, size) {
      var i := BlockOffered(b, lo, size);
    }
  }

  lemma OfferedBlock(b: Books, i: nat, size: int) returns (lo: Word)
    requires Exclusive(b) && WellFormed(b.conv) && size > 0 && i < |b.conv| && OffersAny(b.conv, i, size)
    ensures ConventionalBlock(Meaning(b), lo, size)
  {
    lo :| lo % size == 0 && Inside(b.conv[i], lo, size);
    InsideIsFilled(b.conv, i, lo, size);
  }

  lemma BlockOffered(b: Books, lo: Word, size: int) returns (i: nat)
    requires Exclusive(b) && WellFormed(b.conv) && size > 0 && ConventionalBlock(Meaning(b), lo, size)
    ensures i < |b.conv| && OffersAny(b.conv, i, size)
  {
    forall a | lo <= a < lo + size
      ensures At(b.conv, a) == Some(ANYTHREAD)
    {
      assert In(a, lo, size) && Meaning(b)(a) == Conventional;
    }
    i := FilledIsInside(b.conv, lo, size, ANYTHREAD);
    assert lo % size == 0 && Inside(b.conv[i], lo, size);
  }

  lemma PageLimits(low: Word, high: Word, page: nat)
    requires 10 <= page < 32
    ensures PageStart(low, page) % Size(page) == 0 && PageEnd(high, page) % Size(page) == 0 && Size(page) >= 2
  {
    Pow2IsBlock(page);
    AlignDownIsFloor(low, Size(page));
    AlignDownIsFloor(Add(high, Size(page) - 1), Size(page));
  }

  lemma NextPage(a: Word, end: int, page: Word)
    requires page >= 2 && a % page == 0 && end % page == 0 && a <= end
    ensures a < end ==> a + page <= end && (a + page) % page == 0
    ensures a >= end - 1 ==> a == end
  {
    ModUnique(page, 1, 0, page);
    Multiples(a, page, page);
    Multiples(a, end, page);
  }

  lemma PagesOfBlock(lo: Word, log2size: nat, page: nat)
    requires 1 <= page <= log2size < 32 && lo % Size(log2size) == 0
    ensures lo % Size(page) == 0 && Size(log2size) % Size(page) == 0 && (lo + Size(log2size)) % Size(page) == 0
    ensures lo + Size(log2size) <= WORD && 2 <= Size(page) <= Size(log2size) && Size(page) % Size(page) == 0
  {
    Pow2IsBlock(page);
    Pow2Divides(page, log2size);
    MultipleOfMultiple(lo, Size(log2size), Size(page));
    Multiples(lo, Size(log2size), Size(page));
    AlignedFits(lo, Size(log2size));
    ModUnique(Size(page), 1, 0, Size(page));
  }

  /** A page that is already held is granted by changing nothing. */
  lemma HeldIsGranted(b: Books, a: Word, page: nat, tid: Word)
    requires Consistent(b, page) && OfferedPage(b.alloc, a, Size(page), tid)
    ensures Granted(Meaning(b), Meaning(b), a, Size(page), tid)
  {
  }

  /** A range of whole pages starts at an even address and ends at an odd one. */
  lemma PageEdges(lo: Word, high: Word, page: nat)
    requires 10 <= page < 32 && lo <= high && lo % Size(page) == 0 && (high + 1 - lo) % Size(page) == 0
    ensures lo % 2 == 0 && high % 2 == 1
  {
    Pow2IsBlock(page);
    MultipleOfMultiple(lo, Size(page), 2);
    MultipleOfMultiple(high + 1 - lo, Size(page), 2);
    OddTop(lo, high + 1 - lo);
  }

  lemma OddTop(lo: int, n: int)
    requires lo % 2 == 0 && n % 2 == 0
    ensures (lo + n - 1) % 2 == 1
  {
  }
}
