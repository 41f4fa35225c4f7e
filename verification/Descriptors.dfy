/** What the memory descriptors and the initial servers mean for the requests that follow: from the words in the kernel
    interface page to what a thread is given. */
module Descriptors {
  import opened Words
  import opened Wrappers
  import opened Blocks
  import opened PhysicalMemory
  import opened Books
  import opened MemoryMap
  import S = Sigma0

  /** The page of `a` has an address in the range of the descriptor. */
  ghost predicate Meets(d: MemoryDesc, a: int, page: int)
    requires page > 0
  {
    exists x {:trigger PageBase(x, page)} :: d.low * 1024 <= x < (d.high + 1) * 1024 && PageBase(x, page) == PageBase(a, page)
  }

  /** The descriptor is the last physical one that meets the page of `a`. */
  ghost predicate Decides(ds: seq<MemoryDesc>, k: nat, a: int, page: int)
    requires page > 0
  {
    && k < |ds| && !ds[k].isVirtual && Meets(ds[k], a, page)
    && forall i {:trigger ds[i]} :: k < i < |ds| && !ds[i].isVirtual ==> !Meets(ds[i], a, page)
  }

  ghost predicate ValidTable(ds: seq<MemoryDesc>) {
    forall i {:trigger ds[i]} :: 0 <= i < |ds| && !ds[i].isVirtual ==> ValidDesc(ds[i])
  }

  /** Memory as the descriptors and then the initial servers leave it. */
  ghost predicate Started(m: Memory, ds: seq<MemoryDesc>, kernel: Word, ss: seq<Server>, page: nat)
    requires page < 32
  {
    exists m0 :: Classifies(m0, ds, |ds|, Size(page), kernel) && ServersDone(m0, m, ss, |ss|, page)
  }

  // ----- pages -----

  lemma PageBaseAligned(x: int, page: int)
    requires page > 0
    ensures PageBase(x, page) % page == 0 && PageBase(x, page) <= x < PageBase(x, page) + page
  {
    ModUnique(PageBase(x, page), x / page, 0, page);
  }

  lemma PageBaseOrder(x: int, y: int, page: int)
    requires page > 0 && x <= y
    ensures PageBase(x, page) <= PageBase(y, page)
  {
    var p, q := PageBase(x, page), PageBase(y, page);
    PageBaseAligned(x, page);
    PageBaseAligned(y, page);
    if q < p {
      Multiples(q, p, page);
    }
  }

  /** Some address of the page is between the limits. */
  lemma PageBetween(low: int, high: int, a: int, page: int) returns (x: int)
    requires page > 0 && low <= high && PageBase(low, page) <= a < PageBase(high, page) + page
    ensures low <= x <= high && PageBase(x, page) == PageBase(a, page)
  {
    PageBaseAligned(a, page);
    PageBaseAligned(low, page);
    PageBaseAligned(high, page);
    if PageBase(a, page) < low {
      PageBaseIs(PageBase(low, page), PageBase(low, page), page);
      PageBaseOrder(PageBase(low, page), a, page);
      PageBaseIs(PageBase(a, page), PageBase(a, page), page);
      PageBaseOrder(PageBase(a, page), low, page);
      x := low;
    } else {
      if a > high {
        PageBaseIs(a, PageBase(high, page), page);
      } else {
        PageBaseOrder(a, high, page);
      }
      PageBaseIs(PageBase(a, page), PageBase(a, page), page);
      x := PageBase(a, page);
    }
  }

  lemma BetweenPages(low: int, high: int, a: int, page: int, x: int)
    requires page > 0 && low <= x <= high && PageBase(x, page) == PageBase(a, page)
    ensures PageBase(low, page) <= a < PageBase(high, page) + page
  {
    PageBaseAligned(a, page);
    PageBaseOrder(low, x, page);
    PageBaseOrder(x, high, page);
  }

  /** The computed pages are those that the range meets. */
  lemma CoversIsMeets(d: MemoryDesc, a: int, page: int)
    requires ValidDesc(d) && page > 0
    ensures DescCovers(d, a, page) <==> Meets(d, a, page)
  {
    if DescCovers(d, a, page) {
      var x := PageBetween(DescLow(d), DescHigh(d), a, page);
      assert PageBase(x, page) == PageBase(a, page);
    } else if Meets(d, a, page) {
      var x :| d.low * 1024 <= x < (d.high + 1) * 1024 && PageBase(x, page) == PageBase(a, page);
      BetweenPages(DescLow(d), DescHigh(d), a, page, x);
    }
  }

  // ----- what the kinds mean at the start -----

  /** Conventional memory is free, reserved memory is the kernel's, shared memory is everyone's, dedicated memory and that of the boot
      loader and the architecture is free but not conventional, and any other kind takes memory away altogether. */
  lemma KindDecides(m: Memory, ds: seq<MemoryDesc>, k: nat, a: int, page: nat, kernel: Word)
    requires 10 <= page < 32 && ValidTable(ds) && Classifies(m, ds, |ds|, Size(page), kernel) && Decides(ds, k, a, Size(page))
    ensures m(a) == match ds[k].kind
                    case 1 => Conventional
                    case 2 => Owned(kernel)
                    case 3 => Other
                    case 4 => Owned(ANYTHREAD)
                    case 14 => Other
                    case 15 => Other
                    case _ => Absent
  {
    CoversIsMeets(ds[k], a, Size(page));
    forall i | k < i < |ds|
      ensures ds[i].isVirtual || !DescCovers(ds[i], a, Size(page))
    {
      if !ds[i].isVirtual {
        CoversIsMeets(ds[i], a, Size(page));
      }
    }
    LastDescriptorDecides(ds, |ds|, a, Size(page), kernel, k);
  }

  /** What no physical descriptor meets is free but not conventional. */
  lemma NoneDecides(m: Memory, ds: seq<MemoryDesc>, a: Word, page: nat, kernel: Word)
    requires 10 <= page < 32 && ValidTable(ds) && Classifies(m, ds, |ds|, Size(page), kernel)
    requires forall i {:trigger ds[i]} :: 0 <= i < |ds| && !ds[i].isVirtual ==> !Meets(ds[i], a, Size(page))
    ensures m(a) == Other
  {
    forall i | 0 <= i < |ds|
      ensures ds[i].isVirtual || !DescCovers(ds[i], a, Size(page))
    {
      if !ds[i].isVirtual {
        CoversIsMeets(ds[i], a, Size(page));
      }
    }
    UnmentionedIsOther(ds, |ds|, a, Size(page), kernel);
  }

  /** A server claims the pages that its range meets, unless the range ends in the last page of the address space. */
  lemma ClaimsItsRange(s: Server, a: int, page: nat)
    requires page < 32 && s.low < s.high && s.high + Size(page) <= WORD
    ensures Claims(s, a, page) <==>
            exists x {:trigger PageBase(x, Size(page))} :: s.low <= x < s.high && PageBase(x, Size(page)) == PageBase(a, Size(page))
  {
    var pg := Size(page);
    PageBaseAligned(s.high - 1, pg);
    PageBaseAligned(s.high + (pg - 1), pg);
    PageBaseIs(s.high + (pg - 1), PageBase(s.high - 1, pg) + pg, pg) by {
      Multiples(PageBase(s.high - 1, pg), pg, pg) by {
        ModUnique(pg, 1, 0, pg);
      }
    }
    if Claims(s, a, page) {
      var x := PageBetween(s.low, s.high - 1, a, pg);
      assert PageBase(x, pg) == PageBase(a, pg);
    } else if exists x {:trigger PageBase(x, pg)} :: s.low <= x < s.high && PageBase(x, pg) == PageBase(a, pg) {
      var x :| s.low <= x < s.high && PageBase(x, pg) == PageBase(a, pg);
      BetweenPages(s.low, s.high - 1, a, pg, x);
    }
  }

  /** The servers take free memory only. */
  lemma {:induction false} ServedIfFree(s: Status, ss: seq<Server>, n: nat, page: nat, a: int)
    requires n <= |ss| && page < 32
    ensures s.Owned? || s.Absent? ==> Served(s, ss, n, page, a) == s
    ensures s.Other? ==> Served(s, ss, n, page, a) != Conventional
    ensures Served(s, ss, n, page, a) == s || Served(s, ss, n, page, a).Owned?
  {
    if n > 0 {
      ServedIfFree(s, ss, n - 1, page, a);
    }
  }

  // ----- what they mean for requests -----

  /** Reserved memory stays the kernel's and is mapped to no other thread. */
  lemma ReservedIsKernels(ds: seq<MemoryDesc>, kernel: Word, ss: seq<Server>, page: nat, k: nat, a: int,
                          ms: seq<Memory>, rs: seq<Request>, replies: seq<Option<Word>>, i: nat)
    requires 10 <= page < 32 && ValidTable(ds) && Run(ms, rs, replies, page) && Started(ms[0], ds, kernel, ss, page)
    requires Decides(ds, k, a, Size(page)) && ds[k].kind == 2 && i <= |rs|
    ensures ms[i](a) == Owned(kernel)
    ensures i < |rs| && Mapped(rs, replies, i, a) ==> rs[i].tid == kernel || kernel == ANYTHREAD
  {
    var m0 :| Classifies(m0, ds, |ds|, Size(page), kernel) && ServersDone(m0, ms[0], ss, |ss|, page);
    KindDecides(m0, ds, k, a, page, kernel);
    ServedIfFree(m0(a), ss, |ss|, page, a);
    RunKeeps(ms, rs, replies, page, 0, i, a);
    if i < |rs| {
      StepKeeps(ms[i], rs[i], ms[i + 1], replies[i], page, a);
    }
  }

  /** Memory of no known kind is never mapped. */
  lemma UndefinedIsNobodys(ds: seq<MemoryDesc>, kernel: Word, ss: seq<Server>, page: nat, k: nat, a: int,
                           ms: seq<Memory>, rs: seq<Request>, replies: seq<Option<Word>>, i: nat)
    requires 10 <= page < 32 && ValidTable(ds) && Run(ms, rs, replies, page) && Started(ms[0], ds, kernel, ss, page)
    requires Decides(ds, k, a, Size(page)) && ds[k].kind !in {1, 2, 3, 4, 14, 15} && i <= |rs|
    ensures ms[i](a) == Absent
    ensures i < |rs| ==> !Mapped(rs, replies, i, a)
  {
    var m0 :| Classifies(m0, ds, |ds|, Size(page), kernel) && ServersDone(m0, ms[0], ss, |ss|, page);
    KindDecides(m0, ds, k, a, page, kernel);
    ServedIfFree(m0(a), ss, |ss|, page, a);
    RunKeeps(ms, rs, replies, page, 0, i, a);
    if i < |rs| {
      RunKeeps(ms, rs, replies, page, 0, i + 1, a);
      StepKeeps(ms[i], rs[i], ms[i + 1], replies[i], page, a);
    }
  }

  /** A block of shared memory is given to every thread that asks for it, at any time, and stays everyone's. */
  lemma SharedIsEveryones(ds: seq<MemoryDesc>, kernel: Word, ss: seq<Server>, page: nat,
                          ms: seq<Memory>, rs: seq<Request>, replies: seq<Option<Word>>, i: nat)
    requires 10 <= page < 32 && ValidTable(ds) && Run(ms, rs, replies, page) && Started(ms[0], ds, kernel, ss, page)
    requires i < |rs| && rs[i].AtAddress? && page <= rs[i].log2size < 32
    requires forall a :: In(a, AlignDown(rs[i].addr, Size(rs[i].log2size)), Size(rs[i].log2size)) ==>
               exists k {:trigger ds[k]} :: 0 <= k < |ds| && Decides(ds, k, a, Size(page)) && ds[k].kind == 4
    ensures replies[i] == Some(AlignDown(rs[i].addr, Size(rs[i].log2size))) && Same(ms[i], ms[i + 1])
  {
    var lo, size := AlignDown(rs[i].addr, Size(rs[i].log2size)), Size(rs[i].log2size);
    var m0 :| Classifies(m0, ds, |ds|, Size(page), kernel) && ServersDone(m0, ms[0], ss, |ss|, page);
    forall a | In(a, lo, size)
      ensures ms[i](a) == Owned(ANYTHREAD)
    {
      var k :| 0 <= k < |ds| && Decides(ds, k, a, Size(page)) && ds[k].kind == 4;
      KindDecides(m0, ds, k, a, page, kernel);
      ServedIfFree(m0(a), ss, |ss|, page, a);
      RunKeeps(ms, rs, replies, page, 0, i, a);
    }
    assert In(lo, lo, size);
    assert Step(ms[i], rs[i], ms[i + 1], replies[i], page);
  }

  /** Dedicated memory, and that of the boot loader and the architecture, is never conventional: a thread that asks for memory
      anywhere does not get it, and one that asks for conventional memory there only if it has an owner already. */
  lemma DedicatedIsNotConventional(ds: seq<MemoryDesc>, kernel: Word, ss: seq<Server>, page: nat, k: nat, a: int,
                                   ms: seq<Memory>, rs: seq<Request>, replies: seq<Option<Word>>, i: nat)
    requires 10 <= page < 32 && ValidTable(ds) && Run(ms, rs, replies, page) && Started(ms[0], ds, kernel, ss, page)
    requires Decides(ds, k, a, Size(page)) && ds[k].kind in {3, 14, 15} && i <= |rs|
    ensures ms[i](a) == Other || ms[i](a).Owned?
    ensures i < |rs| && Mapped(rs, replies, i, a) ==> rs[i].AtAddress? && (rs[i].onlyConventional ==> ms[i](a).Owned?)
  {
    var m0 :| Classifies(m0, ds, |ds|, Size(page), kernel) && ServersDone(m0, ms[0], ss, |ss|, page);
    KindDecides(m0, ds, k, a, page, kernel);
    ServedIfFree(m0(a), ss, |ss|, page, a);
    OtherStays(ms, rs, replies, page, i, a);
    if i < |rs| {
      assert Step(ms[i], rs[i], ms[i + 1], replies[i], page);
    }
  }

  lemma {:induction false} OtherStays(ms: seq<Memory>, rs: seq<Request>, replies: seq<Option<Word>>, page: nat, i: nat, a: int)
    requires Run(ms, rs, replies, page) && i <= |rs| && (ms[0](a) == Other || ms[0](a).Owned?)
    ensures ms[i](a) == Other || ms[i](a).Owned?
  {
    if i > 0 {
      OtherStays(ms, rs, replies, page, i - 1, a);
      StepKeeps(ms[i - 1], rs[i - 1], ms[i], replies[i - 1], page, a);
    }
  }

  /** Memory of one of the given kinds that no server claims and that was not mapped yet. */
  ghost predicate Untouched(ds: seq<MemoryDesc>, kinds: set<nat>, ss: seq<Server>, page: nat,
                            rs: seq<Request>, replies: seq<Option<Word>>, i: nat, a: int)
    requires page < 32 && i <= |rs| == |replies|
  {
    && (exists k {:trigger ds[k]} :: 0 <= k < |ds| && Decides(ds, k, a, Size(page)) && ds[k].kind in kinds)
    && (forall j {:trigger ss[j]} :: 0 <= j < |ss| ==> !Claims(ss[j], a, page))
    && forall j :: 0 <= j < i ==> !Mapped(rs, replies, j, a)
  }

  lemma UntouchedIsFree(ds: seq<MemoryDesc>, kinds: set<nat>, kernel: Word, ss: seq<Server>, page: nat,
                        ms: seq<Memory>, rs: seq<Request>, replies: seq<Option<Word>>, i: nat, a: int)
    requires 10 <= page < 32 && ValidTable(ds) && Run(ms, rs, replies, page) && Started(ms[0], ds, kernel, ss, page)
    requires i <= |rs| && Untouched(ds, kinds, ss, page, rs, replies, i, a)
    ensures kinds == {1} ==> ms[i](a) == Conventional
    ensures kinds == {3, 14, 15} ==> ms[i](a) == Other
  {
    var m0 :| Classifies(m0, ds, |ds|, Size(page), kernel) && ServersDone(m0, ms[0], ss, |ss|, page);
    var k :| 0 <= k < |ds| && Decides(ds, k, a, Size(page)) && ds[k].kind in kinds;
    KindDecides(m0, ds, k, a, page, kernel);
    Unclaimed(m0(a), ss, |ss|, page, a);
    FreeUntilMapped(ms, rs, replies, page, i, a);
  }

  /** A block of such memory is given to the thread that asks for it; if it is not conventional, only to one that does not ask for
      conventional memory. */
  lemma FreeIsGiven(ds: seq<MemoryDesc>, kinds: set<nat>, kernel: Word, ss: seq<Server>, page: nat,
                    ms: seq<Memory>, rs: seq<Request>, replies: seq<Option<Word>>, i: nat)
    requires 10 <= page < 32 && ValidTable(ds) && Run(ms, rs, replies, page) && Started(ms[0], ds, kernel, ss, page)
    requires i < |rs| && rs[i].AtAddress? && page <= rs[i].log2size < 32 && kinds in [{1}, {3, 14, 15}]
    requires forall a :: In(a, AlignDown(rs[i].addr, Size(rs[i].log2size)), Size(rs[i].log2size)) ==>
               Untouched(ds, kinds, ss, page, rs, replies, i, a)
    ensures replies[i] == (if kinds == {1} || !rs[i].onlyConventional then Some(AlignDown(rs[i].addr, Size(rs[i].log2size))) else None)
    ensures replies[i].Some? ==> forall a :: In(a, replies[i].value, Size(rs[i].log2size)) ==> ms[i + 1](a) == Owned(rs[i].tid)
  {
    var lo, size := AlignDown(rs[i].addr, Size(rs[i].log2size)), Size(rs[i].log2size);
    var s := if kinds == {1} then Conventional else Other;
    forall a | In(a, lo, size)
      ensures ms[i](a) == s
    {
      UntouchedIsFree(ds, kinds, kernel, ss, page, ms, rs, replies, i, a);
    }
    UniformIsGiven(ms[i], rs[i], ms[i + 1], replies[i], page, s);
  }

  lemma UniformIsGiven(m: Memory, r: Request, m': Memory, reply: Option<Word>, page: nat, s: Status)
    requires Step(m, r, m', reply, page) && r.AtAddress? && page <= r.log2size < 32 && (s.Conventional? || s.Other?)
    requires forall a :: In(a, AlignDown(r.addr, Size(r.log2size)), Size(r.log2size)) ==> m(a) == s
    ensures reply == if s.Conventional? || !r.onlyConventional then Some(AlignDown(r.addr, Size(r.log2size))) else None
    ensures reply.Some? ==> forall a :: In(a, reply.value, Size(r.log2size)) ==> m'(a) == Owned(r.tid)
  {
    var lo := AlignDown(r.addr, Size(r.log2size));
    assert In(lo, lo, Size(r.log2size));
  }

  /** Free memory stays as it is until it is mapped. */
  lemma {:induction false} FreeUntilMapped(ms: seq<Memory>, rs: seq<Request>, replies: seq<Option<Word>>, page: nat, i: nat, a: int)
    requires Run(ms, rs, replies, page) && i <= |rs| && forall j :: 0 <= j < i ==> !Mapped(rs, replies, j, a)
    ensures ms[i](a) == ms[0](a)
  {
    if i > 0 {
      FreeUntilMapped(ms, rs, replies, page, i - 1, a);
      assert Step(ms[i - 1], rs[i - 1], ms[i], replies[i - 1], page) && !Mapped(rs, replies, i - 1, a);
    }
  }

  /** The memory manager from the kernel interface page to its last request: a run to which all this applies. */
  method StartAndServe(page: nat, ds: seq<MemoryDesc>, kernel: Word, ss: seq<Server>, rs: seq<Request>)
    returns (server: S.Sigma0, replies: seq<Option<Word>>, ghost ms: seq<Memory>)
    requires 10 <= page < 32 && ValidTable(ds) && forall i :: 0 <= i < |rs| ==> rs[i].log2size < 32
    ensures server.Valid() && Run(ms, rs, replies, page) && Started(ms[0], ds, kernel, ss, page) && ms[|rs|] == server.Mem()
  {
    server := new S.Sigma0(page);
    server.InitFromDescriptors(ds, kernel);
    ghost var m0 := server.Mem();
    server.InitServers(ss);
    replies, ms := server.Serve(rs);
  }
}
