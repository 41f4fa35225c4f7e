/** The block arithmetic of sigma0: may an aligned block of `Pow2(log2size)` bytes be taken from a region?

    The tests are written as the memory manager computes them, on wrapping machine words; the lemmas say
    what they mean over the integers. */
module Blocks {
  import opened Words
  import opened Spans

  function Size(log2size: nat): (size: Word)
    requires log2size < 32
    ensures IsBlock(size)
  {
    Pow2IsBlock(log2size);
    Pow2(log2size)
  }

  /** The region's limits rounded inwards to the block size; both may wrap. */
  function LowAligned(s: Span, size: Word): Word
    requires IsBlock(size)
  {
    AlignDown(Sub(Add(s.low, size), 1), size)
  }

  function HighAligned(s: Span, size: Word): Word
    requires IsBlock(size)
  {
    Sub(AlignDown(Add(s.high, 1), size), 1)
  }

  predicate OwnerAllows(owner: Word, tid: Word) {
    owner == tid || owner == ANYTHREAD
  }

  /** The test made before taking the block at `addr`. */
  predicate CanAllocate(s: Span, addr: Word, log2size: nat, tid: Word)
    requires log2size < 32
  {
    var size := Size(log2size);
    var low := LowAligned(s, size);
    var high := HighAligned(s, size);
    !(addr < low
      || Sub(Add(addr, size), 1) > high
      || Sub(high, low) < size - 1
      || s.low > low
      || s.high < size - 1
      || (s.owner != tid && s.owner != ANYTHREAD))
  }

  /** The test made before taking a block from anywhere in the region. */
  predicate CanAllocateAny(s: Span, log2size: nat, tid: Word)
    requires log2size < 32
  {
    var size := Size(log2size);
    var low := LowAligned(s, size);
    var high := HighAligned(s, size);
    !(low > high
      || s.low > low
      || s.high < size - 1
      || Sub(high, low) < size - 1
      || (s.owner != tid && s.owner != ANYTHREAD))
  }

  /** The block `[addr, addr + size)` lies inside the region, as integers. */
  predicate Inside(s: Span, addr: int, size: int) {
    s.low <= addr && addr + size - 1 <= s.high
  }

  /** Rounding the lower limit up either gives the least aligned address not below it, or wraps to 0. */
  lemma LowAlignedIsCeiling(s: Span, size: Word)
    requires IsBlock(size)
    ensures LowAligned(s, size) % size == 0
    ensures s.low + size - 1 < WORD ==> s.low <= LowAligned(s, size)
    ensures s.low + size - 1 >= WORD ==> LowAligned(s, size) == 0 && forall a: Word {:trigger a % size} :: a % size == 0 ==> a <= WORD - size < s.low
    ensures s.low + size - 1 < WORD ==> forall a: int {:trigger a % size} :: a % size == 0 && s.low <= a ==> LowAligned(s, size) <= a
  {
    var x := Sub(Add(s.low, size), 1);
    AlignDownIsFloor(x, size);
    if s.low + size - 1 >= WORD {
      assert x < size;
      ModUnique(x, 0, x, size);
      forall a: Word | a % size == 0
        ensures a <= WORD - size
      {
        AlignedFits(a, size);
      }
    } else {
      forall a: int | a % size == 0 && s.low <= a
        ensures LowAligned(s, size) <= a
      {
        if a < LowAligned(s, size) {
          Multiples(a, LowAligned(s, size), size);
        }
      }
    }
  }

  /** Rounding the upper limit down gives the end of the last aligned block; it wraps only below the first block. */
  lemma HighAlignedIsFloor(s: Span, size: Word)
    requires IsBlock(size)
    ensures s.high >= size - 1 ==> HighAligned(s, size) <= s.high && (HighAligned(s, size) + 1) % size == 0 && HighAligned(s, size) >= size - 1
    ensures s.high >= size - 1 ==> forall a: int {:trigger a % size} :: a % size == 0 && a + size - 1 <= s.high ==> a + size - 1 <= HighAligned(s, size)
  {
    if s.high == MAX {
      ModUnique(0, 0, 0, size);
    } else if s.high >= size - 1 {
      AlignDownIsFloor(s.high + 1, size);
      ModUnique(size, 1, 0, size);
      assert AlignDown(s.high + 1, size) >= size;
      forall a: int | a % size == 0 && a + size - 1 <= s.high
        ensures a + size - 1 <= HighAligned(s, size)
      {
        Multiples(a, size, size);
        assert (a + size) % size == 0;
      }
    }
  }

  /** For an aligned address the wrapping test is exactly containment. */
  lemma CanAllocateExact(s: Span, addr: Word, log2size: nat, tid: Word)
    requires log2size < 32 && addr % Size(log2size) == 0 && s.low <= s.high
    ensures CanAllocate(s, addr, log2size, tid) <==> OwnerAllows(s.owner, tid) && Inside(s, addr, Size(log2size))
  {
    var size := Size(log2size);
    LowAlignedIsCeiling(s, size);
    HighAlignedIsFloor(s, size);
    AlignedFits(addr, size);
  }

  /** The tests that tell where in the region the block lies. */
  lemma BlockPlace(s: Span, addr: Word, log2size: nat)
    requires log2size < 32 && addr % Size(log2size) == 0
    ensures var size := Size(log2size);
            Inside(s, addr, size) ==>
              && (LowAligned(s, size) == s.low && addr == s.low <==> addr == s.low)
              && (HighAligned(s, size) == s.high && Sub(Add(addr, size), 1) == s.high <==> addr + size - 1 == s.high)
  {
    var size := Size(log2size);
    if Inside(s, addr, size) {
      LowAlignedIsCeiling(s, size);
      HighAlignedIsFloor(s, size);
      AlignedFits(addr, size);
    }
  }

  /** The block the any-address form takes: from the start, the end, or the middle of the region. */
  function AnyBase(s: Span, log2size: nat): (base: int)
    requires log2size < 32
  {
    var size := Size(log2size);
    if LowAligned(s, size) != s.low && HighAligned(s, size) == s.high then s.high - size + 1
    else LowAligned(s, size)
  }

  /** Some aligned block of this size fits into the region. */
  ghost predicate SomeBlockFits(s: Span, size: int)
    requires size > 0
  {
    exists a: Word :: a % size == 0 && Inside(s, a, size)
  }

  /** The any-address test succeeds exactly when some aligned block fits, and then the chosen block does. */
  lemma CanAllocateAnyExact(s: Span, log2size: nat, tid: Word)
    requires log2size < 32 && s.low <= s.high
    ensures CanAllocateAny(s, log2size, tid) <==>
            OwnerAllows(s.owner, tid) && SomeBlockFits(s, Size(log2size))
    ensures CanAllocateAny(s, log2size, tid) ==>
              Inside(s, AnyBase(s, log2size), Size(log2size)) && AnyBase(s, log2size) % Size(log2size) == 0
  {
    var size := Size(log2size);
    LowAlignedIsCeiling(s, size);
    HighAlignedIsFloor(s, size);
    if CanAllocateAny(s, log2size, tid) {
      ModUnique(size, 1, 0, size);
      Multiples(HighAligned(s, size) + 1, size, size);
      assert LowAligned(s, size) % size == 0 && Inside(s, LowAligned(s, size), size);
    }
  }

  /** The tests that tell where in the region the any-address form takes its block. */
  lemma AnyPlace(s: Span, log2size: nat)
    requires log2size < 32 && SomeBlockFits(s, Size(log2size)) && s.low <= s.high
    ensures var size := Size(log2size);
            var base := AnyBase(s, log2size);
            && Inside(s, base, size) && base % size == 0
            && (LowAligned(s, size) == s.low ==> base == s.low)
            && (LowAligned(s, size) != s.low && HighAligned(s, size) == s.high ==> base == s.high - size + 1 && base > s.low)
            && (LowAligned(s, size) != s.low && HighAligned(s, size) != s.high ==> base == LowAligned(s, size) && s.low < base && base + size - 1 < s.high)
  {
    var size := Size(log2size);
    CanAllocateAnyExact(s, log2size, s.owner);
    LowAlignedIsCeiling(s, size);
    HighAlignedIsFloor(s, size);
    AlignedFits(AnyBase(s, log2size), size);
  }

  // ----- what a region list offers -----

  /** Position `i` has a region from which `tid` may have the block. */
  ghost predicate Offers(ss: seq<Span>, i: nat, addr: int, size: int, tid: Word)
    requires i < |ss|
  {
    OwnerAllows(ss[i].owner, tid) && Inside(ss[i], addr, size)
  }

  /** Position `i` has a region that gives `tid` the page at `a`, and the walk does not skip that region: the end of
      the page wraps to 0 for the topmost page, and then every region that starts above 0 is skipped. */
  ghost predicate OffersPage(ss: seq<Span>, i: nat, a: Word, size: Word, tid: Word)
    requires i < |ss|
  {
    Offers(ss, i, a, size, tid) && ss[i].low <= Add(a, size)
  }

  ghost predicate OffersAny(ss: seq<Span>, i: nat, size: int)
    requires i < |ss| && size > 0
  {
    OwnerAllows(ss[i].owner, ANYTHREAD) && SomeBlockFits(ss[i], size)
  }
}
