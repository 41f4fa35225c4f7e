/** The memory descriptors and initial servers of the kernel interface page, and the memory state they call for. */
module MemoryMap {
  import opened Words
  import opened Wrappers
  import opened Spans
  import opened Blocks
  import opened PhysicalMemory
  import opened Books

  /** A memory descriptor: its limits are stored in units of 1024 bytes. */
  datatype MemoryDesc = MemoryDesc(kind: nat, subkind: nat, isVirtual: bool, low: nat, high: nat)

  ghost predicate ValidDesc(d: MemoryDesc) {
    d.kind < 16 && d.subkind < 16 && d.low < 0x40_0000 && d.high < 0x40_0000 && d.low <= d.high
  }

  const CONVENTIONAL := 0x1
  const RESERVED := 0x2
  const DEDICATED := 0x3
  const SHARED := 0x4
  const BOOTLOADERSPECIFIC := 0xe
  const ARCHITECTURESPECIFIC := 0xf

  /** The type, with the subtype above it for the two kinds that have one. */
  function DescType(d: MemoryDesc): nat {
    if d.kind >= 0xe then d.kind + d.subkind * 16 else d.kind
  }

  function DescLow(d: MemoryDesc): int {
    d.low * 1024
  }

  function DescHigh(d: MemoryDesc): int {
    d.high * 1024 + 0x3ff
  }

  /** The start of the page that contains `x`, and the start of the first page not below `x`; the latter wraps. */
  function PageStart(x: Word, page: nat): Word
    requires page < 32
  {
    AlignDown(x, Size(page))
  }

  function PageEnd(x: Word, page: nat): Word
    requires page < 32
  {
    AlignDown(Add(x, Size(page) - 1), Size(page))
  }

  /** The status a descriptor gives to its pages. */
  function DescStatus(d: MemoryDesc, kernel: Word): Status {
    if d.kind == BOOTLOADERSPECIFIC || d.kind == ARCHITECTURESPECIFIC || d.kind == DEDICATED then Other
    else if d.kind == CONVENTIONAL then Conventional
    else if d.kind == RESERVED then Owned(kernel)
    else if d.kind == SHARED then Owned(ANYTHREAD)
    else Absent
  }

  /** The descriptor's pages include `a`. */
  predicate DescCovers(d: MemoryDesc, a: int, page: int)
    requires page > 0
  {
    PageBase(DescLow(d), page) <= a < PageBase(DescHigh(d), page) + page
  }

  /** The status of `a` after the first `n` descriptors: the last physical descriptor that covers its page decides, and
      memory that no descriptor mentions is not conventional. */
  function Classified(ds: seq<MemoryDesc>, n: nat, a: int, page: int, kernel: Word): Status
    requires n <= |ds| && page > 0
  {
    if n == 0 then if 0 <= a < WORD then Other else Absent
    else if !ds[n - 1].isVirtual && DescCovers(ds[n - 1], a, page) then DescStatus(ds[n - 1], kernel)
    else Classified(ds, n - 1, a, page, kernel)
  }

  /** Stated without recursion: the deciding descriptor is the last one. */
  lemma {:induction false} LastDescriptorDecides(ds: seq<MemoryDesc>, n: nat, a: int, page: int, kernel: Word, k: nat)
    requires k < n <= |ds| && page > 0
    requires !ds[k].isVirtual && DescCovers(ds[k], a, page)
    requires forall i :: k < i < n ==> ds[i].isVirtual || !DescCovers(ds[i], a, page)
    ensures Classified(ds, n, a, page, kernel) == DescStatus(ds[k], kernel)
  {
    if k < n - 1 {
      LastDescriptorDecides(ds, n - 1, a, page, kernel, k);
    }
  }

  lemma {:induction false} UnmentionedIsOther(ds: seq<MemoryDesc>, n: nat, a: int, page: int, kernel: Word)
    requires n <= |ds| && page > 0 && 0 <= a < WORD
    requires forall i :: 0 <= i < n ==> ds[i].isVirtual || !DescCovers(ds[i], a, page)
    ensures Classified(ds, n, a, page, kernel) == Other
  {
    if n > 0 {
      UnmentionedIsOther(ds, n - 1, a, page, kernel);
    }
  }

  // ----- page limits -----

  /** Rounding up the address at offset `r` of the page at `base` gives the page's end, also at the top of the address
      space. */
  lemma PageEndIs(base: Word, r: Word, pg: Word)
    requires 0 < r < pg && IsBlock(pg) && base + pg <= WORD && base % pg == 0 && (base + pg) % pg == 0
    ensures Sub(AlignDown(Add(base + r, pg - 1), pg), 1) == base + pg - 1
  {
    if base + pg < WORD {
      AlignedFits(base + pg, pg);
      AlignDownOf(base + pg, r - 1, pg);
    } else {
      ModUnique(0, 0, 0, pg);
      AlignDownOf(0, r - 1, pg);
    }
  }

  lemma Size10(page: nat)
    requires 10 <= page < 32
    ensures Size(page) % 1024 == 0
  {
    Pow2Divides(10, page);
    assert Pow2(10) == 1024 by {
      assert Pow2(5) == 32;
      Pow2Add(5, 5);
    }
  }

  /** The pages a descriptor covers. */
  lemma DescPages(d: MemoryDesc, page: nat)
    requires ValidDesc(d) && 10 <= page < 32
    ensures 0 <= DescLow(d) <= DescHigh(d) <= MAX
    ensures PageStart(DescLow(d), page) == PageBase(DescLow(d), Size(page))
    ensures Sub(PageEnd(DescHigh(d), page), 1) == PageBase(DescHigh(d), Size(page)) + Size(page) - 1
    ensures PageBase(DescHigh(d), Size(page)) + Size(page) <= WORD
    ensures PageBase(DescLow(d), Size(page)) <= PageBase(DescHigh(d), Size(page))
  {
    var pg, low, high := Size(page), DescLow(d), DescHigh(d);
    Size10(page);
    if high % pg == 0 {
      MultipleOfMultiple(high, pg, 1024);
    }
    ModBounds(high, pg);
    AlignDownIsFloor(low, pg);
    AlignDownIsFloor(high, pg);
    AlignedFits(high - high % pg, pg);
    ModUnique(pg, 1, 0, pg);
    Multiples(pg, high - high % pg, pg);
    PageEndIs(high - high % pg, high % pg, pg);
  }

  /** A page-aligned range was given one status; nothing else changed. */
  ghost predicate Reclassified(m: Memory, m': Memory, lo: int, size: int, s: Status) {
    forall a :: m'(a) == if In(a, lo, size) then s else m(a)
  }

  lemma ReclassifyKeepsPages(m: Memory, m': Memory, lo: int, size: int, s: Status, page: int)
    requires page > 0 && lo % page == 0 && size % page == 0
    requires PageWise(m, page) && Reclassified(m, m', lo, size, s)
    ensures PageWise(m', page)
  {
    forall a: int
      ensures m'(a) == m'(PageBase(a, page))
    {
      PageInBlock(a, lo, size, page);
    }
  }

  // ----- editing the books -----

  /** A range was taken out of all three lists. */
  ghost predicate Cleaned(b: Books, b': Books, lo: int, hi: int) {
    Removed(b.conv, b'.conv, lo, hi) && Removed(b.mem, b'.mem, lo, hi) && Removed(b.alloc, b'.alloc, lo, hi)
  }

  /** The range was then added to the list for status `s`, or to none. */
  ghost predicate Entered(b: Books, b': Books, lo: int, hi: int, s: Status) {
    match s
    case Absent => b' == b
    case Conventional => Added(b.conv, b'.conv, lo, hi, ANYTHREAD) && b' == b.(conv := b'.conv)
    case Other => Added(b.mem, b'.mem, lo, hi, ANYTHREAD) && b' == b.(mem := b'.mem)
    case Owned(o) => Added(b.alloc, b'.alloc, lo, hi, o) && b' == b.(alloc := b'.alloc)
  }

  /** Removing from all lists and inserting into at most one replaces the status of the range. */
  lemma EnterReclassifies(b: Books, b1: Books, b2: Books, lo: int, hi: int, s: Status)
    requires Exclusive(b) && Cleaned(b, b1, lo, hi) && Entered(b1, b2, lo, hi, s)
    ensures Exclusive(b2) && Reclassified(Meaning(b), Meaning(b2), lo, hi + 1 - lo, s)
  {
  }

  lemma CleanedIsUnowned(b: Books, b1: Books, lo: int, hi: int)
    requires Cleaned(b, b1, lo, hi)
    ensures Unowned(b1.conv, lo, hi) && Unowned(b1.mem, lo, hi) && Unowned(b1.alloc, lo, hi)
  {
  }

  /** Exactly the descriptor's pages took on its status. */
  ghost predicate Described(m: Memory, m': Memory, d: MemoryDesc, kernel: Word, page: int)
    requires page > 0
  {
    forall a :: m'(a) == if DescCovers(d, a, page) then DescStatus(d, kernel) else m(a)
  }

  /** The memory state after the first `n` descriptors. */
  ghost predicate Classifies(m: Memory, ds: seq<MemoryDesc>, n: nat, page: int, kernel: Word)
    requires n <= |ds| && page > 0
  {
    forall a :: m(a) == Classified(ds, n, a, page, kernel)
  }

  lemma NextDescriptor(m: Memory, m': Memory, ds: seq<MemoryDesc>, n: nat, page: int, kernel: Word)
    requires n < |ds| && page > 0 && Classifies(m, ds, n, page, kernel)
    requires if ds[n].isVirtual then m' == m else Described(m, m', ds[n], kernel, page)
    ensures Classifies(m', ds, n + 1, page, kernel)
  {
  }

  // ----- the initial servers -----

  /** A server's memory, as an inclusive start and an exclusive end. */
  datatype Server = Server(low: Word, high: Word, tid: Word)

  /** Free memory between `lo` and `hi` now belongs to `tid`. */
  ghost predicate Registered(m: Memory, m': Memory, lo: int, hi: int, tid: Word) {
    forall a :: m'(a) == if lo <= a < hi && (m(a).Conventional? || m(a).Other?) then Owned(tid) else m(a)
  }

  predicate Claims(s: Server, a: int, page: nat)
    requires page < 32
  {
    s.high != 0 && PageStart(s.low, page) <= a < PageEnd(s.high, page)
  }

  /** The status of `a`, at first `s`, after the first `n` servers got their memory in order; a server without an end is
      skipped. */
  function Served(s: Status, ss: seq<Server>, n: nat, page: nat, a: int): Status
    requires n <= |ss| && page < 32
  {
    if n == 0 then s
    else
      var s' := Served(s, ss, n - 1, page, a);
      if Claims(ss[n - 1], a, page) && (s'.Conventional? || s'.Other?) then Owned(ss[n - 1].tid) else s'
  }

  ghost predicate ServersDone(m: Memory, now: Memory, ss: seq<Server>, n: nat, page: nat)
    requires n <= |ss| && page < 32
  {
    forall a :: now(a) == Served(m(a), ss, n, page, a)
  }

  lemma NextServer(m: Memory, ss: seq<Server>, n: nat, page: nat, now: Memory, then': Memory)
    requires n < |ss| && page < 32 && ServersDone(m, now, ss, n, page)
    requires if ss[n].high != 0 then Registered(now, then', PageStart(ss[n].low, page), PageEnd(ss[n].high, page), ss[n].tid)
             else then' == now
    ensures ServersDone(m, then', ss, n + 1, page)
  {
  }

  /** Of the servers that claim the same free page the first gets it. */
  lemma {:induction false} FirstServerGetsIt(s: Status, ss: seq<Server>, n: nat, page: nat, k: nat, a: int)
    requires k < n <= |ss| && page < 32 && (s.Conventional? || s.Other?) && Claims(ss[k], a, page)
    requires forall i :: 0 <= i < k ==> !Claims(ss[i], a, page)
    ensures Served(s, ss, n, page, a) == Owned(ss[k].tid)
  {
    if k < n - 1 {
      FirstServerGetsIt(s, ss, n - 1, page, k, a);
    } else {
      Unclaimed(s, ss, k, page, a);
    }
  }

  lemma {:induction false} Unclaimed(s: Status, ss: seq<Server>, n: nat, page: nat, a: int)
    requires n <= |ss| && page < 32
    requires forall i :: 0 <= i < n ==> !Claims(ss[i], a, page)
    ensures Served(s, ss, n, page, a) == s
  {
    if n > 0 {
      Unclaimed(s, ss, n - 1, page, a);
    }
  }

  lemma RegisteredJoin(m: Memory, m': Memory, m'': Memory, lo: int, mid: int, hi: int, tid: Word)
    requires lo <= mid <= hi && Registered(m, m', lo, mid, tid) && Registered(m', m'', mid, hi, tid)
    ensures Registered(m, m'', lo, hi, tid)
  {
  }

  /** Asking for one page registers it if it is free, and changes nothing if it is not. */
  lemma PageRegisters(m: Memory, m': Memory, tid: Word, a: Word, item: Option<Word>, page: nat)
    requires 10 <= page < 32 && a % Size(page) == 0 && a + Size(page) < WORD && PageWise(m, Size(page))
    requires Step(m, AtAddress(tid, a, page, false), m', item, page)
    ensures Registered(m, m', a, a + Size(page), tid)
  {
    AlignDownOf(a, 0, Size(page));
    forall x | In(x, a, Size(page))
      ensures m(x) == m(a)
    {
      PageBaseIs(x, a, Size(page));
    }
    assert In(a, a, Size(page));
    if item.None? {
      assert !Usable(m(a), tid, false);
    }
  }
}
