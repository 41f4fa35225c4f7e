/** Where kickstart puts things: memory descriptors in the kernel interface page, and the search for free regions. */
module Boot {
  import opened Words
  import opened Wrappers
  import opened Sequences
  import opened MemoryMap
  import Bootinfo
  import PhysicalMemory

  type Word64 = w: int | 0 <= w < 0x1_0000_0000_0000_0000

  type Mod = Bootinfo.BootModule

  /** The words at which the interface page keeps the records of the kernel debugger and the three initial servers, and
      the mask of page sizes. */
  const SERVERS := 4
  const PAGE_SIZES := 50

  // ----- intersection -----

  predicate IsIntersection(start1: Word, end1: Word, start2: Word, end2: Word) {
    || (start1 >= start2 && start1 <= end2)
    || (end1 >= start2 && end1 <= end2)
    || (start1 <= start2 && end1 >= end2)
  }

  predicate Within(x: int, low: int, high: int) {
    low <= x <= high
  }

  /** A proper first range: the test finds every common address, and for a proper second range nothing else. */
  lemma IntersectionIsCommon(start1: Word, end1: Word, start2: Word, end2: Word)
    requires start1 <= end1
    ensures (exists x :: Within(x, start1, end1) && Within(x, start2, end2)) ==> IsIntersection(start1, end1, start2, end2)
    ensures start2 <= end2 && IsIntersection(start1, end1, start2, end2) ==> exists x :: Within(x, start1, end1) && Within(x, start2, end2)
  {
    var x := if start1 >= start2 then start1 else start2;
    if start2 <= end2 && IsIntersection(start1, end1, start2, end2) {
      assert Within(x, start1, end1) && Within(x, start2, end2);
    }
  }

  // ----- descriptors in the interface page -----

  /** A descriptor as it is laid out in two words. */
  function Decode(low: Word, high: Word): MemoryDesc {
    MemoryDesc(low % 16, low / 16 % 16, low / 512 % 2 == 1, low / 1024, high / 1024)
  }

  /** The fields are set; bit 8 of the first word and the low ten bits of the second keep what they were. The limits are
      cut to 32 bits. */
  function EncodeLow(was: Word, kind: nat, subkind: nat, start: Word64): Word
    requires kind < 16 && subkind < 16
  {
    start / 1024 % 0x40_0000 * 1024 + was / 256 % 2 * 256 + subkind * 16 + kind
  }

  function EncodeHigh(was: Word, end: Word64): Word {
    end / 1024 % 0x40_0000 * 1024 + was % 1024
  }

  lemma DecodeEncode(was0: Word, was1: Word, kind: nat, subkind: nat, start: Word64, end: Word64)
    requires kind < 16 && subkind < 16
    ensures Decode(EncodeLow(was0, kind, subkind, start), EncodeHigh(was1, end)) ==
            MemoryDesc(kind, subkind, false, start / 1024 % 0x40_0000, end / 1024 % 0x40_0000)
    ensures EncodeLow(was0, kind, subkind, start) / 256 % 2 == was0 / 256 % 2 && EncodeHigh(was1, end) % 1024 == was1 % 1024
  {
    ModUnique(EncodeLow(was0, kind, subkind, start), start / 1024 % 0x40_0000 * 4 + was0 / 256 % 2, subkind * 16 + kind, 256);
    ModUnique(start / 1024 % 0x40_0000 * 4 + was0 / 256 % 2, start / 1024 % 0x40_0000 * 2, was0 / 256 % 2, 2);
    FieldsOf(start / 1024 % 0x40_0000, 0, was0 / 256 % 2, subkind, kind);
    ModUnique(EncodeHigh(was1, end), end / 1024 % 0x40_0000, was1 % 1024, 1024);
  }

  lemma FieldsOf(limit: nat, v: nat, pad: nat, subkind: nat, kind: nat)
    requires v < 2 && pad < 2 && subkind < 16 && kind < 16
    ensures var w := limit * 1024 + v * 512 + pad * 256 + subkind * 16 + kind;
            w % 16 == kind && w / 16 % 16 == subkind && w / 512 % 2 == v && w / 1024 == limit
  {
    var w := limit * 1024 + v * 512 + pad * 256 + subkind * 16 + kind;
    ModUnique(w, limit * 64 + v * 32 + pad * 16 + subkind, kind, 16);
    ModUnique(w / 16, limit * 4 + v * 2 + pad, subkind, 16);
    ModUnique(w, limit * 2 + v, pad * 256 + subkind * 16 + kind, 512);
    ModUnique(limit * 2 + v, limit, v, 2);
    ModUnique(w, limit, v * 512 + pad * 256 + subkind * 16 + kind, 1024);
  }

  /** All five fields are read from where they are in the two words, whatever the bits between them are: the type in bits 0 to 3 of
      the first word, the subtype in bits 4 to 7, whether it is virtual in bit 9, and the limits in the upper 22 bits of each. */
  lemma FieldsRead(d: MemoryDesc, pad: nat, rest: nat)
    requires d.kind < 16 && d.subkind < 16 && d.low < 0x40_0000 && d.high < 0x40_0000 && pad < 2 && rest < 1024
    ensures Decode(d.low * 1024 + (if d.isVirtual then 512 else 0) + pad * 256 + d.subkind * 16 + d.kind, d.high * 1024 + rest) == d
  {
    FieldsOf(d.low, if d.isVirtual then 1 else 0, pad, d.subkind, d.kind);
    ModUnique(d.high * 1024 + rest, d.high, rest, 1024);
  }

  /** The descriptor that is read back covers the range that was dedicated, up to the next multiples of 1024. */
  lemma DecodedCovers(start: Word, end: Word, d: MemoryDesc)
    requires d.low == start / 1024 % 0x40_0000 && d.high == end / 1024 % 0x40_0000
    ensures DescLow(d) <= start < DescLow(d) + 1024 && end <= DescHigh(d) < end + 1024
  {
  }

  /** Descriptor `i` of the table at word `offset`. */
  function DescIn(kip: seq<Word>, offset: nat, i: nat): MemoryDesc
    requires offset + 2 * i + 1 < |kip|
  {
    Decode(kip[offset + 2 * i], kip[offset + 2 * i + 1])
  }

  /** Memory that must be kept free, as the search sees it: all that is neither conventional nor virtual, but for the
      shared descriptor over the whole address space. */
  predicate Taken(d: MemoryDesc) {
    d.kind != CONVENTIONAL && !d.isVirtual && !(d.kind == SHARED && DescLow(d) == 0 && DescHigh(d) == 0xFFFF_FFFF)
  }

  lemma LimitsAreWords(kip: seq<Word>, offset: nat, i: nat)
    requires offset + 2 * i + 1 < |kip|
    ensures 0 <= DescLow(DescIn(kip, offset, i)) < WORD && 0 <= DescHigh(DescIn(kip, offset, i)) < WORD
  {
  }

  /** The region does not meet an initial server or a taken descriptor. */
  ghost predicate ClearOfKip(kip: seq<Word>, offset: nat, count: nat, start: Word, end: Word)
    requires |kip| >= 20 && offset + 2 * count <= |kip|
  {
    && (forall i :: 0 <= i < 4 ==> !IsIntersection(start, end, kip[SERVERS + i * 4 + 2], kip[SERVERS + i * 4 + 3]))
    && (forall i {:trigger DescIn(kip, offset, i)} :: 0 <= i < count && Taken(DescIn(kip, offset, i)) ==>
          (LimitsAreWords(kip, offset, i);
           !IsIntersection(start, end, DescLow(DescIn(kip, offset, i)), DescHigh(DescIn(kip, offset, i)))))
  }

  /** The region does not meet a boot module or kickstart itself. */
  ghost predicate ClearOfMods(mods: seq<Mod>, kickBegin: Word, kickEnd: Word, start: Word, end: Word) {
    && (forall i {:trigger mods[i]} :: 0 <= i < |mods| ==> !IsIntersection(start, end, mods[i].start, mods[i].end))
    && !IsIntersection(start, end, kickBegin, kickEnd)
  }

  /** A region of `size` bytes from `start` passes both tests. */
  ghost predicate Passes(kip: seq<Word>, offset: nat, count: nat, mods: seq<Mod>, kickBegin: Word, kickEnd: Word, start: Word, size: Word)
    requires |kip| >= 20 && offset + 2 * count <= |kip|
  {
    && ClearOfMods(mods, kickBegin, kickEnd, start, Add(Sub(start, 1), size))
    && ClearOfKip(kip, offset, count, start, Add(Sub(start, 1), size))
  }

  /** What passing means: no address of the region is anyone else's. */
  lemma PassedIsDisjoint(kip: seq<Word>, offset: nat, count: nat, mods: seq<Mod>, kickBegin: Word, kickEnd: Word, start: Word, size: Word, x: int)
    requires |kip| >= 20 && offset + 2 * count <= |kip| && size > 0 && start + size <= WORD
    requires Passes(kip, offset, count, mods, kickBegin, kickEnd, start, size) && start <= x < start + size
    ensures !(kickBegin <= x <= kickEnd)
    ensures forall i {:trigger mods[i]} :: 0 <= i < |mods| ==> !(mods[i].start <= x <= mods[i].end)
    ensures forall i :: 0 <= i < 4 ==> !(kip[SERVERS + i * 4 + 2] <= x <= kip[SERVERS + i * 4 + 3])
    ensures forall i {:trigger DescIn(kip, offset, i)} :: 0 <= i < count && Taken(DescIn(kip, offset, i)) ==>
              !(DescLow(DescIn(kip, offset, i)) <= x <= DescHigh(DescIn(kip, offset, i)))
  {
  }

  /** Physical conventional memory. */
  predicate IsMain(d: MemoryDesc) {
    d.kind == CONVENTIONAL && !d.isVirtual
  }

  /** `max` is the highest address of conventional memory. */
  ghost predicate IsPhysMemMax(kip: seq<Word>, offset: nat, count: nat, max: Word)
    requires offset + 2 * count <= |kip|
  {
    && (forall i {:trigger DescIn(kip, offset, i)} :: 0 <= i < count && IsMain(DescIn(kip, offset, i)) ==> DescHigh(DescIn(kip, offset, i)) <= max)
    && (max == 0 || exists i {:trigger DescIn(kip, offset, i)} ::
          0 <= i < count && IsMain(DescIn(kip, offset, i)) && DescHigh(DescIn(kip, offset, i)) == max)
  }

  /** The words of a descriptor of physical conventional memory: type 1, and bit 9 not set. */
  predicate MainWords(w0: Word) {
    w0 % 16 == 1 && w0 / 512 % 2 == 0
  }

  /** The words of a descriptor that keeps memory free: bit 9 is not set, the type is not 1, and it is not type 4 over the whole
      address space. */
  predicate TakenWords(w0: Word, w1: Word) {
    w0 / 512 % 2 == 0 && w0 % 16 != 1 && !(w0 % 16 == 4 && w0 < 1024 && w1 >= 0xFFFF_FC00)
  }

  predicate InRange(x: int, w0: Word, w1: Word) {
    w0 - w0 % 1024 <= x <= w1 - w1 % 1024 + 1023
  }

  lemma DescWords(w0: Word, w1: Word)
    ensures var d := Decode(w0, w1);
            && (IsMain(d) <==> MainWords(w0)) && (Taken(d) <==> TakenWords(w0, w1))
            && DescLow(d) == w0 - w0 % 1024 && DescHigh(d) == w1 - w1 % 1024 + 1023
  {
  }

  /** The two words of descriptor `i`. */
  function FirstWord(kip: seq<Word>, offset: nat, i: nat): Word
    requires offset + 2 * i + 1 < |kip|
  {
    kip[offset + 2 * i]
  }

  function SecondWord(kip: seq<Word>, offset: nat, i: nat): Word
    requires offset + 2 * i + 1 < |kip|
  {
    kip[offset + 2 * i + 1]
  }

  /** The end of conventional memory, said of the words of the interface page. */
  lemma MaxOnWords(kip: seq<Word>, offset: nat, count: nat, max: Word)
    requires offset + 2 * count <= |kip| && IsPhysMemMax(kip, offset, count, max)
    ensures forall i :: 0 <= i < count && MainWords(FirstWord(kip, offset, i)) ==>
                          SecondWord(kip, offset, i) - SecondWord(kip, offset, i) % 1024 + 1023 <= max
    ensures max == 0 || exists i :: 0 <= i < count && MainWords(FirstWord(kip, offset, i))
                                    && SecondWord(kip, offset, i) - SecondWord(kip, offset, i) % 1024 + 1023 == max
  {
    forall i {:trigger DescIn(kip, offset, i)} {:trigger FirstWord(kip, offset, i)} | 0 <= i < count
      ensures IsMain(DescIn(kip, offset, i)) <==> MainWords(FirstWord(kip, offset, i))
      ensures DescHigh(DescIn(kip, offset, i)) == SecondWord(kip, offset, i) - SecondWord(kip, offset, i) % 1024 + 1023
    {
      DescWords(kip[offset + 2 * i], kip[offset + 2 * i + 1]);
    }
  }

  /** One of the initial servers has the address. */
  predicate ServerHas(kip: seq<Word>, i: nat, x: int)
    requires |kip| >= 22 && i < 4
  {
    kip[6 + 4 * i] <= x <= kip[7 + 4 * i]
  }

  /** A descriptor that keeps memory free has the address. */
  predicate DescHas(kip: seq<Word>, offset: nat, i: nat, x: int)
    requires offset + 2 * i + 1 < |kip|
  {
    TakenWords(FirstWord(kip, offset, i), SecondWord(kip, offset, i)) && InRange(x, FirstWord(kip, offset, i), SecondWord(kip, offset, i))
  }

  /** Servers and descriptors whose lower limit is not above the upper one. */
  ghost predicate ProperRanges(kip: seq<Word>, offset: nat, count: nat)
    requires |kip| >= 22 && offset + 2 * count <= |kip|
  {
    && kip[6] <= kip[7] && kip[10] <= kip[11] && kip[14] <= kip[15] && kip[18] <= kip[19]
    && forall i :: 0 <= i < count ==> FirstWord(kip, offset, i) / 1024 <= SecondWord(kip, offset, i) / 1024
  }

  lemma ServerMeets(kip: seq<Word>, i: nat, start: Word, end: Word)
    requires |kip| >= 22 && i < 4 && start <= end && kip[6 + 4 * i] <= kip[7 + 4 * i]
    ensures IsIntersection(start, end, kip[SERVERS + i * 4 + 2], kip[SERVERS + i * 4 + 3]) <==>
            exists x :: Within(x, start, end) && ServerHas(kip, i, x)
  {
    IntersectionIsCommon(start, end, kip[6 + 4 * i], kip[7 + 4 * i]);
    if x :| Within(x, start, end) && Within(x, kip[6 + 4 * i], kip[7 + 4 * i]) {
      assert ServerHas(kip, i, x);
    }
    if x :| Within(x, start, end) && ServerHas(kip, i, x) {
      assert Within(x, kip[6 + 4 * i], kip[7 + 4 * i]);
    }
  }

  lemma DescMeets(kip: seq<Word>, offset: nat, i: nat, start: Word, end: Word)
    requires offset + 2 * i + 1 < |kip| && start <= end && FirstWord(kip, offset, i) / 1024 <= SecondWord(kip, offset, i) / 1024
    ensures var d := DescIn(kip, offset, i);
            && 0 <= DescLow(d) <= DescHigh(d) < WORD
            && (Taken(d) && IsIntersection(start, end, DescLow(d), DescHigh(d)) <==> exists x :: Within(x, start, end) && DescHas(kip, offset, i, x))
  {
    var d := DescIn(kip, offset, i);
    DescWords(kip[offset + 2 * i], kip[offset + 2 * i + 1]);
    LimitsAreWords(kip, offset, i);
    IntersectionIsCommon(start, end, DescLow(d), DescHigh(d));
    if x :| Within(x, start, end) && Within(x, DescLow(d), DescHigh(d)) {
      assert Taken(d) ==> DescHas(kip, offset, i, x);
    }
    if x :| Within(x, start, end) && DescHas(kip, offset, i, x) {
      assert Within(x, DescLow(d), DescHigh(d));
    }
  }

  /** A region is free exactly if no address in it is an initial server's or kept free by a descriptor, said of the words of the
      interface page. */
  lemma FreeOnWords(kip: seq<Word>, offset: nat, count: nat, start: Word, end: Word)
    requires |kip| >= 22 && offset + 2 * count <= |kip| && start <= end && ProperRanges(kip, offset, count)
    ensures ClearOfKip(kip, offset, count, start, end) <==>
            forall x :: Within(x, start, end) ==>
                          (forall i :: 0 <= i < 4 ==> !ServerHas(kip, i, x)) && forall i :: 0 <= i < count ==> !DescHas(kip, offset, i, x)
  {
    forall i | 0 <= i < 4
      ensures IsIntersection(start, end, kip[SERVERS + i * 4 + 2], kip[SERVERS + i * 4 + 3]) <==>
              exists x :: Within(x, start, end) && ServerHas(kip, i, x)
    {
      ServerMeets(kip, i, start, end);
    }
    forall i {:trigger DescIn(kip, offset, i)} | 0 <= i < count
      ensures var d := DescIn(kip, offset, i);
              && 0 <= DescLow(d) <= DescHigh(d) < WORD
              && (Taken(d) && IsIntersection(start, end, DescLow(d), DescHigh(d)) <==> exists x :: Within(x, start, end) && DescHas(kip, offset, i, x))
    {
      DescMeets(kip, offset, i, start, end);
    }
    if ClearOfKip(kip, offset, count, start, end) {
      forall x, i | Within(x, start, end) && 0 <= i < 4
        ensures !ServerHas(kip, i, x)
      {
        assert !IsIntersection(start, end, kip[SERVERS + i * 4 + 2], kip[SERVERS + i * 4 + 3]);
      }
      forall x, i | Within(x, start, end) && 0 <= i < count
        ensures !DescHas(kip, offset, i, x)
      {
        var d := DescIn(kip, offset, i);
        assert !(Taken(d) && IsIntersection(start, end, DescLow(d), DescHigh(d)));
      }
    }
  }

  class KipManager {
    const kip: array<Word>
    const offset: nat
    var count: nat

    ghost predicate Valid()
      reads this, kip
    {
      kip.Length > PAGE_SIZES && PAGE_SIZES < offset && offset + 2 * count <= kip.Length
    }

    function Desc(i: nat): MemoryDesc
      requires offset + 2 * i + 1 < kip.Length
      reads kip
    {
      DescIn(kip[..], offset, i)
    }

    constructor (kip: array<Word>, offset: nat)
      requires kip.Length > PAGE_SIZES && PAGE_SIZES < offset <= kip.Length
      ensures Valid() && this.kip == kip && this.offset == offset && count == 0
    {
      this.kip, this.offset, count := kip, offset, 0;
    }

    /** Adds a descriptor behind the others, which stay as they are. The table has room for it. */
    method DedicateMemory(start: Word64, end: Word64, kind: nat, subkind: nat)
      requires Valid() && kind < 16 && subkind < 16 && offset + 2 * count + 2 <= kip.Length
      modifies this`count, kip
      ensures Valid() && count == old(count) + 1
      ensures Desc(old(count)) == MemoryDesc(kind, subkind, false, start / 1024 % 0x40_0000, end / 1024 % 0x40_0000)
      ensures forall k {:trigger kip[k]} :: 0 <= k < kip.Length && !(offset + 2 * old(count) <= k <= offset + 2 * old(count) + 1) ==>
                kip[k] == old(kip[k])
      ensures forall i {:trigger Desc(i)} :: 0 <= i < old(count) ==> Desc(i) == old(Desc(i))
      ensures var i := offset + 2 * old(count); kip[i] / 256 % 2 == old(kip[i]) / 256 % 2 && kip[i + 1] % 1024 == old(kip[i + 1]) % 1024
    {
      var i := offset + 2 * count;
      DecodeEncode(kip[i], kip[i + 1], kind, subkind, start, end);
      kip[i], kip[i + 1] := EncodeLow(kip[i], kind, subkind, start), EncodeHigh(kip[i + 1], end);
      count := count + 1;
    }

    /** The highest address of physical conventional memory, or 0. */
    method GetPhysMemMax() returns (max: Word)
      requires Valid()
      ensures IsPhysMemMax(kip[..], offset, count, max)
    {
      max := 0;
      for i := 0 to count
        invariant IsPhysMemMax(kip[..], offset, i, max)
      {
        var d := Desc(i);
        LimitsAreWords(kip[..], offset, i);
        if d.kind == CONVENTIONAL && !d.isVirtual && DescHigh(d) > max {
          max := DescHigh(d);
        }
      }
    }

    /** The smallest page size, or 0 when the mask is empty. The low ten bits of the word are not part of the mask; when they
        are the only ones that are set, the search for a bit does not end. */
    method GetMinPagesize() returns (size: Option<Word>)
      requires Valid()
      ensures size == Some(0) <==> kip[50] == 0
      ensures size == None <==> 0 < kip[50] < 1024
      ensures kip[50] >= 1024 ==> exists n :: 10 <= n < 32 && size == Some(Pow2(n)) && Bit(kip[50], n) && forall k :: 10 <= k < n ==> !Bit(kip[50], k)
    {
      if kip[PAGE_SIZES] == 0 {
        return Some(0);
      }
      if kip[PAGE_SIZES] < 1024 {
        // no bit that is tested is set, and the tested bit is shifted out at last
        return None;
      }
      var n := MinPageSize(kip[PAGE_SIZES]);
      Pow2IsBlock(n);
      size := Some(Pow2(n));
    }

    method IsMemRegionFree(start: Word, size: Word) returns (free: bool)
      requires Valid()
      ensures free <==> ClearOfKip(kip[..], offset, count, start, Add(Sub(start, 1), size))
    {
      var end := Add(Sub(start, 1), size);
      for i := 0 to 4
        invariant forall j :: 0 <= j < i ==> !IsIntersection(start, end, kip[SERVERS + j * 4 + 2], kip[SERVERS + j * 4 + 3])
      {
        if IsIntersection(start, end, kip[SERVERS + i * 4 + 2], kip[SERVERS + i * 4 + 3]) {
          return false;
        }
      }
      for i := 0 to count
        invariant forall j {:trigger DescIn(kip[..], offset, j)} :: 0 <= j < i && Taken(DescIn(kip[..], offset, j)) ==>
          (LimitsAreWords(kip[..], offset, j);
           !IsIntersection(start, end, DescLow(DescIn(kip[..], offset, j)), DescHigh(DescIn(kip[..], offset, j))))
      {
        var d := Desc(i);
        if d.kind == CONVENTIONAL || d.isVirtual {
          continue;
        }
        LimitsAreWords(kip[..], offset, i);
        if d.kind == SHARED && DescLow(d) == 0 && DescHigh(d) == 0xFFFF_FFFF {
          continue;
        }
        if IsIntersection(start, end, DescLow(d), DescHigh(d)) {
          return false;
        }
      }
      return true;
    }
  }

  method ModsAreaFree(mods: seq<Mod>, kickBegin: Word, kickEnd: Word, start: Word, size: Word) returns (free: bool)
    ensures free <==> ClearOfMods(mods, kickBegin, kickEnd, start, Add(Sub(start, 1), size))
  {
    var end := Add(Sub(start, 1), size);
    for i := 0 to |mods|
      invariant forall j {:trigger mods[j]} :: 0 <= j < i ==> !IsIntersection(start, end, mods[j].start, mods[j].end)
    {
      if IsIntersection(start, end, mods[i].start, mods[i].end) {
        return false;
      }
    }
    return !IsIntersection(start, end, kickBegin, kickEnd);
  }

  // ----- the search -----

  /** How a search ends; `Endless` is one that comes back to where it began. */
  datatype Placing = At(start: Word) | Nowhere | Endless

  const WORD64 := 0x1_0000_0000_0000_0000

  /** The address that is tried in step `k`: addresses are counted in 64 bits, and tested in 32. */
  function Tried(size: Word, k: nat): Word64 {
    if k == 0 then 0 else Onward(Tried(size, k - 1), size)
  }

  function Onward(start: Word64, size: Word): Word64 {
    if start + size < WORD64 then start + size else start + size - WORD64
  }

  function Low(start: Word64): Word {
    start % WORD
  }

  /** Where the search stops: the subtraction wraps when there is less conventional memory than is asked for. */
  function Limit(max: Word, size: Word): Word64 {
    if size <= max then max - size else WORD64 + max - size
  }

  /** The search gets to step `k`: all addresses before are below the limit, and do not pass. */
  ghost predicate Reached(pass: Word -> bool, size: Word, max: Word, k: nat) {
    forall i: nat {:trigger Tried(size, i)} :: i < k ==> Tried(size, i) < Limit(max, size) && !pass(Low(Tried(size, i)))
  }

  /** The search ends in step `k`. */
  ghost predicate Stops(pass: Word -> bool, size: Word, max: Word, k: nat) {
    Reached(pass, size, max, k) && (Tried(size, k) >= Limit(max, size) || pass(Low(Tried(size, k))))
  }

  ghost function Test(kip: seq<Word>, offset: nat, count: nat, mods: seq<Mod>, kickBegin: Word, kickEnd: Word, size: Word): Word -> bool
    requires |kip| >= 20 && offset + 2 * count <= |kip|
  {
    (a: Word) => Passes(kip, offset, count, mods, kickBegin, kickEnd, a, size)
  }

  lemma {:induction false} TriedZero(size: Word, k: nat)
    ensures size == 0 ==> Tried(size, k) == 0
  {
    if k > 0 {
      TriedZero(size, k - 1);
    }
  }

  lemma {:induction false} TriedIs(size: Word, k: nat) returns (q: int)
    ensures k * size == q * WORD64 + Tried(size, k)
  {
    if k == 0 {
      q := 0;
    } else {
      q := TriedIs(size, k - 1);
      assert k * size == (k - 1) * size + size;
      q := if Tried(size, k - 1) + size < WORD64 then q else q + 1;
    }
  }

  /** After as many steps as there are addresses the search is back at 0. */
  lemma BackAtZero(size: Word, k: nat)
    requires k == WORD64
    ensures Tried(size, k) == 0
  {
    var q := TriedIs(size, k);
  }

  lemma ReachedNext(pass: Word -> bool, size: Word, max: Word, k: nat)
    requires Reached(pass, size, max, k) && k < WORD64
    requires Tried(size, k) < Limit(max, size) && !pass(Low(Tried(size, k)))
    ensures Reached(pass, size, max, k + 1) && Tried(size, k + 1) == Onward(Tried(size, k), size)
    ensures k + 1 < WORD64 || Tried(size, k + 1) == 0
  {
    if k + 1 == WORD64 {
      BackAtZero(size, k + 1);
    }
  }

  lemma {:induction false} Periodic(size: Word, p: nat, k: nat)
    requires Tried(size, p) == 0
    ensures Tried(size, p + k) == Tried(size, k)
  {
    if k > 0 {
      Periodic(size, p, k - 1);
    }
  }

  /** A search that is back at 0 goes on for ever. */
  lemma {:induction false} GoesOn(pass: Word -> bool, size: Word, max: Word, p: nat, k: nat)
    requires p > 0 && Tried(size, p) == 0 && Reached(pass, size, max, p)
    ensures Reached(pass, size, max, k) && !Stops(pass, size, max, k)
  {
    if k > 0 {
      GoesOn(pass, size, max, p, k - 1);
    }
    RejectedAgain(pass, size, max, p, k);
  }

  lemma {:induction false} RejectedAgain(pass: Word -> bool, size: Word, max: Word, p: nat, k: nat)
    requires p > 0 && Tried(size, p) == 0 && Reached(pass, size, max, p)
    ensures Tried(size, k) < Limit(max, size) && !pass(Low(Tried(size, k)))
  {
    if k >= p {
      Periodic(size, p, k - p);
      RejectedAgain(pass, size, max, p, k - p);
    }
  }

  lemma AllGoOn(pass: Word -> bool, size: Word, max: Word, p: nat)
    requires p > 0 && Tried(size, p) == 0 && Reached(pass, size, max, p)
    ensures forall n: nat {:trigger Stops(pass, size, max, n)} :: !Stops(pass, size, max, n)
  {
    forall n: nat
      ensures !Stops(pass, size, max, n)
    {
      GoesOn(pass, size, max, p, n);
    }
  }

  predicate Multiple(a: int, size: int)
    requires size > 0
    decreases a
  {
    a == 0 || (a >= size && Multiple(a - size, size))
  }

  lemma {:induction false} MultipleIsMod(a: nat, size: int)
    requires size > 0
    ensures Multiple(a, size) <==> a % size == 0
    decreases a
  {
    if a >= size {
      MultipleIsMod(a - size, size);
      ModUnique(a, (a - size) / size + 1, (a - size) % size, size);
    } else {
      ModUnique(a, 0, a, size);
    }
  }

  lemma {:induction false} NoneBetween(a: int, b: int, size: int)
    requires size > 0 && Multiple(a, size) && Multiple(b, size) && a < b
    ensures a + size <= b
    decreases a
  {
    if a > 0 {
      NoneBetween(a - size, b - size, size);
    }
  }

  /** No region that starts at a multiple of its size below `limit` passes. */
  ghost predicate NonePass(pass: Word -> bool, size: Word, limit: int)
    requires size > 0
  {
    forall b: Word {:trigger Multiple(b, size)} :: b < limit && Multiple(b, size) ==> !pass(b)
  }

  /** The lowest multiple of the size that passes, with the region below the end of conventional memory. */
  ghost predicate LowestFit(pass: Word -> bool, size: Word, max: Word, a: Word)
    requires size > 0
  {
    Multiple(a, size) && a + size < max && pass(a) && NonePass(pass, size, a)
  }

  /** When there is as much conventional memory as is asked for, the search tries the multiples of the size in turn. */
  lemma {:induction false} TriesMultiples(pass: Word -> bool, size: Word, max: Word, k: nat)
    requires 0 < size <= max && Reached(pass, size, max, k)
    ensures Multiple(Tried(size, k), size) && Tried(size, k) <= max && NonePass(pass, size, Tried(size, k))
  {
    if k > 0 {
      TriesMultiples(pass, size, max, k - 1);
      var t := Tried(size, k - 1);
      assert t < Limit(max, size) && !pass(Low(t));
      forall b: Word | b < t + size && Multiple(b, size)
        ensures !pass(b)
      {
        if t < b {
          NoneBetween(t, b, size);
        }
      }
    }
  }

  /** It gets to the limit if nothing passes before. */
  lemma EndsSoon(pass: Word -> bool, size: Word, max: Word) returns (k: nat)
    requires 0 < size <= max
    ensures Stops(pass, size, max, k)
  {
    k := 0;
    while !Stops(pass, size, max, k)
      invariant Reached(pass, size, max, k)
      decreases max - Tried(size, k)
    {
      TriesMultiples(pass, size, max, k);
      k := k + 1;
    }
  }

  /** Then it ends, and finds the lowest region that fits, unless that is the one at 0. */
  lemma FindsLowest(pass: Word -> bool, size: Word, max: Word, k: nat)
    requires 0 < size <= max && Stops(pass, size, max, k)
    ensures Tried(size, k) < WORD && Low(Tried(size, k)) == Tried(size, k)
    ensures Tried(size, k) < Limit(max, size) ==> LowestFit(pass, size, max, Tried(size, k))
    ensures (Tried(size, k) < Limit(max, size) && Tried(size, k) != 0) <==> exists a: Word :: a > 0 && LowestFit(pass, size, max, a)
  {
    TriesMultiples(pass, size, max, k);
    var t := Tried(size, k);
    assert Low(t) == t && Multiple(0, size);
    if t < Limit(max, size) && t != 0 {
      var a: Word := t;
      assert a > 0 && LowestFit(pass, size, max, a);
    }
    if a: Word :| a > 0 && LowestFit(pass, size, max, a) {
      assert t < Limit(max, size) && t != 0;
    }
  }

  ghost predicate NeverStops(pass: Word -> bool, size: Word, max: Word) {
    forall n: nat {:trigger Stops(pass, size, max, n)} :: !Stops(pass, size, max, n)
  }

  /** The search ends with `r`, in step `k`. What it finds at 0 is taken for a failure. */
  ghost predicate Ends(pass: Word -> bool, size: Word, max: Word, r: Placing, k: nat) {
    if r.Endless? then
      NeverStops(pass, size, max)
    else
      && Stops(pass, size, max, k)
      && (r.At? <==> Tried(size, k) < Limit(max, size) && Low(Tried(size, k)) != 0)
      && (r.At? ==> r.start == Low(Tried(size, k)) && pass(r.start))
  }

  method Try(kip: KipManager, mods: seq<Mod>, kickBegin: Word, kickEnd: Word, start: Word, size: Word) returns (ok: bool)
    requires kip.Valid()
    ensures ok <==> Test(kip.kip[..], kip.offset, kip.count, mods, kickBegin, kickEnd, size)(start)
  {
    ok := ModsAreaFree(mods, kickBegin, kickEnd, start, size);
    if ok {
      ok := kip.IsMemRegionFree(start, size);
    }
  }

  /** Tries the multiples of the size from 0 on. */
  method Search(kip: KipManager, mods: seq<Mod>, kickBegin: Word, kickEnd: Word, size: Word, max: Word, ghost pass: Word -> bool)
    returns (r: Placing, ghost k: nat)
    requires kip.Valid() && pass == Test(kip.kip[..], kip.offset, kip.count, mods, kickBegin, kickEnd, size)
    ensures Ends(pass, size, max, r, k)
  {
    var start, limit := 0, Limit(max, size);
    k := 0;
    while start < limit
      invariant start == Tried(size, k) && Reached(pass, size, max, k) && k < WORD64
      decreases WORD64 - k
    {
      var ok := Try(kip, mods, kickBegin, kickEnd, Low(start), size);
      if ok {
        return if Low(start) == 0 then Nowhere else At(Low(start)), k;
      }
      ReachedNext(pass, size, max, k);
      start := Onward(start, size);
      k := k + 1;
      if start == 0 {
        // nothing has changed since the search began
        AllGoOn(pass, size, max, k);
        return Endless, k;
      }
    }
    r := Nowhere;
  }

  /** Finds room for `size` bytes. With enough conventional memory the search ends, and it finds a region exactly if there is
      one that fits and the region at 0 does not pass; it finds the lowest. */
  method FindFreeRegion(kip: KipManager, mods: seq<Mod>, kickBegin: Word, kickEnd: Word, size: Word, ghost pass: Word -> bool)
    returns (r: Placing, max: Word, ghost k: nat)
    requires kip.Valid() && pass == Test(kip.kip[..], kip.offset, kip.count, mods, kickBegin, kickEnd, size)
    ensures IsPhysMemMax(kip.kip[..], kip.offset, kip.count, max)
    ensures Ends(pass, size, max, r, k)
    ensures 0 < size <= max ==>
              && !r.Endless?
              && (r.At? <==> exists a: Word :: a > 0 && LowestFit(pass, size, max, a))
              && (r.At? ==> r.start > 0 && r.start % size == 0 && LowestFit(pass, size, max, r.start))
  {
    max := kip.GetPhysMemMax();
    r, k := Search(kip, mods, kickBegin, kickEnd, size, max, pass);
    if 0 < size <= max {
      ghost var n := EndsSoon(pass, size, max);
      FindsLowest(pass, size, max, if r.Endless? then n else k);
      if r.At? {
        MultipleIsMod(r.start, size);
      }
    }
  }

  // ----- what is placed -----

  /** Finds room and dedicates it to the boot loader: for the bootinfo (of the smallest page size) and for the copy of the
      multiboot information. Nothing is dedicated when there is no room. Where the region is found below the end of
      conventional memory it does not wrap. */
  method Place(kip: KipManager, mods: seq<Mod>, kickBegin: Word, kickEnd: Word, size: Word) returns (r: Placing, max: Word)
    requires kip.Valid() && kip.offset + 2 * kip.count + 2 <= kip.kip.Length
    modifies kip`count, kip.kip
    ensures kip.Valid() && IsPhysMemMax(old(kip.kip[..]), kip.offset, old(kip.count), max)
    ensures r.At? ==>
              && size > 0 && (size <= max ==> r.start + size < max)
              && Passes(old(kip.kip[..]), kip.offset, old(kip.count), mods, kickBegin, kickEnd, r.start, size)
              && kip.count == old(kip.count) + 1
              && kip.Desc(old(kip.count)).kind == 14 && kip.Desc(old(kip.count)).subkind == 1 && !kip.Desc(old(kip.count)).isVirtual
              && (r.start + size <= WORD ==>
                    DescLow(kip.Desc(old(kip.count))) <= r.start && r.start + size - 1 <= DescHigh(kip.Desc(old(kip.count))))
              && SameTable(old(kip.kip[..]), kip.kip[..], kip.offset, old(kip.count))
    ensures !r.At? ==> kip.count == old(kip.count) && kip.kip[..] == old(kip.kip[..])
  {
    ghost var k;
    ghost var pass := Test(kip.kip[..], kip.offset, kip.count, mods, kickBegin, kickEnd, size);
    r, max, k := FindFreeRegion(kip, mods, kickBegin, kickEnd, size, pass);
    if r.At? {
      TriedZero(size, k);
      Dedicate(kip, r.start, size);
    }
  }

  /** Adds a descriptor for a region to the boot loader's. */
  method Dedicate(kip: KipManager, start: Word, size: Word)
    requires kip.Valid() && kip.offset + 2 * kip.count + 2 <= kip.kip.Length && size > 0
    modifies kip`count, kip.kip
    ensures kip.Valid() && kip.count == old(kip.count) + 1
    ensures kip.Desc(old(kip.count)).kind == 14 && kip.Desc(old(kip.count)).subkind == 1 && !kip.Desc(old(kip.count)).isVirtual
    ensures start + size <= WORD ==>
              DescLow(kip.Desc(old(kip.count))) <= start && start + size - 1 <= DescHigh(kip.Desc(old(kip.count)))
    ensures SameTable(old(kip.kip[..]), kip.kip[..], kip.offset, old(kip.count))
  {
    kip.DedicateMemory(start, Add(Sub(start, 1), size), BOOTLOADERSPECIFIC, 1);
    if start + size <= WORD {
      DecodedCovers(start, start + size - 1, kip.Desc(kip.count - 1));
    }
  }

  /** The words of the servers and the first descriptors are the same. */
  ghost predicate SameTable(was: seq<Word>, now: seq<Word>, offset: nat, count: nat)
    requires offset + 2 * count <= |was| == |now|
  {
    forall k {:trigger now[k]} :: 0 <= k < offset + 2 * count ==> now[k] == was[k]
  }

  /** A descriptor that is not for conventional memory leaves the end of conventional memory where it was. */
  lemma SameMax(was: seq<Word>, now: seq<Word>, offset: nat, count: nat, m: Word, m': Word)
    requires |was| == |now| && offset + 2 * count + 2 <= |now| && SameTable(was, now, offset, count)
    requires !IsMain(DescIn(now, offset, count))
    requires IsPhysMemMax(was, offset, count, m) && IsPhysMemMax(now, offset, count + 1, m')
    ensures m == m'
  {
    forall i | 0 <= i < count
      ensures DescIn(was, offset, i) == DescIn(now, offset, i)
    {
    }
  }

  /** A region that passes with more descriptors passes with the first of them. */
  lemma PassesBefore(was: seq<Word>, now: seq<Word>, offset: nat, count: nat, more: nat, mods: seq<Mod>, kickBegin: Word, kickEnd: Word,
                     start: Word, size: Word)
    requires |was| == |now| && offset >= 20 && offset + 2 * more <= |now| && count <= more && SameTable(was, now, offset, count)
    requires Passes(now, offset, more, mods, kickBegin, kickEnd, start, size)
    ensures Passes(was, offset, count, mods, kickBegin, kickEnd, start, size)
  {
    forall i | 0 <= i < count
      ensures DescIn(was, offset, i) == DescIn(now, offset, i)
    {
    }
    forall k | 0 <= k < 20
      ensures was[k] == now[k]
    {
    }
  }

  /** The size of the multiboot information, rounded up to whole pages. */
  function RoundUp(size: nat): (r: nat)
    ensures r % 4096 == 0 && size <= r < size + 4096
  {
    if size % 4096 != 0 then (size + 4096) / 4096 * 4096 else size
  }

  /** Bootinfo and the copy of the multiboot information are placed one after the other: neither meets the other,
      kickstart, a boot module, an initial server, or memory that a descriptor keeps free. */
  method PlaceBoth(kip: KipManager, mods: seq<Mod>, kickBegin: Word, kickEnd: Word, page: Word, mbiSize: nat)
    returns (bi: Placing, mbi: Placing, max: Word)
    requires kip.Valid() && kip.offset + 2 * kip.count + 4 <= kip.kip.Length && mbiSize <= 0xFFFF_F000
    modifies kip`count, kip.kip
    ensures kip.Valid() && IsPhysMemMax(old(kip.kip[..]), kip.offset, old(kip.count), max)
    ensures bi.At? && mbi.At? && page <= max && RoundUp(mbiSize) <= max ==>
              && bi.start + page < max && mbi.start + RoundUp(mbiSize) < max
              && (bi.start + page <= mbi.start || mbi.start + RoundUp(mbiSize) <= bi.start)
    ensures bi.At? && mbi.At? ==>
              && (bi.start + page <= WORD && mbi.start + RoundUp(mbiSize) <= WORD ==>
                    bi.start + page <= mbi.start || mbi.start + RoundUp(mbiSize) <= bi.start)
              && Passes(old(kip.kip[..]), kip.offset, old(kip.count), mods, kickBegin, kickEnd, bi.start, page)
              && Passes(old(kip.kip[..]), kip.offset, old(kip.count), mods, kickBegin, kickEnd, mbi.start, RoundUp(mbiSize))
              && kip.count == old(kip.count) + 2
  {
    bi, max := Place(kip, mods, kickBegin, kickEnd, page);
    ghost var was, n := kip.kip[..], kip.count;
    var max2;
    mbi, max2 := Place(kip, mods, kickBegin, kickEnd, RoundUp(mbiSize));
    if bi.At? {
      SameMax(old(kip.kip[..]), was, kip.offset, old(kip.count), max, max2);
    }
    if bi.At? && mbi.At? && bi.start + page <= WORD && mbi.start + RoundUp(mbiSize) <= WORD {
      PlacedApart(was, kip.offset, n, mods, kickBegin, kickEnd, bi.start, page, mbi.start, RoundUp(mbiSize));
    }
    if bi.At? && mbi.At? {
      PassesBefore(old(kip.kip[..]), was, kip.offset, old(kip.count), n, mods, kickBegin, kickEnd, mbi.start, RoundUp(mbiSize));
    }
  }

  /** What the boot loader dedicates is not handed out as conventional memory: as long as later descriptors that cover a page
      of it are the boot loader's too, sigma0 keeps the page in its pool of other memory. */
  lemma {:induction false} DedicatedIsOther(ds: seq<MemoryDesc>, n: nat, j: nat, a: int, page: int, kernel: Word)
    requires j < n <= |ds| && page > 0
    requires ds[j].kind == BOOTLOADERSPECIFIC && !ds[j].isVirtual && DescCovers(ds[j], a, page)
    requires forall i {:trigger ds[i]} :: j < i < n && !ds[i].isVirtual && DescCovers(ds[i], a, page) ==> ds[i].kind == BOOTLOADERSPECIFIC
    ensures Classified(ds, n, a, page, kernel) == PhysicalMemory.Other
  {
    if j < n - 1 {
      DedicatedIsOther(ds, n - 1, j, a, page, kernel);
    }
  }

  /** A region that passes does not meet one that the last descriptor was made for. */
  lemma PlacedApart(kip: seq<Word>, offset: nat, count: nat, mods: seq<Mod>, kickBegin: Word, kickEnd: Word,
                    a: Word, n: Word, b: Word, m: Word)
    requires |kip| >= 20 && offset + 2 * count <= |kip| && count > 0 && n > 0 && m > 0 && a + n <= WORD && b + m <= WORD
    requires Taken(DescIn(kip, offset, count - 1))
    requires DescLow(DescIn(kip, offset, count - 1)) <= a && a + n - 1 <= DescHigh(DescIn(kip, offset, count - 1))
    requires Passes(kip, offset, count, mods, kickBegin, kickEnd, b, m)
    ensures a + n <= b || b + m <= a
  {
  }

  // ----- a region at 0 -----

  /** One descriptor: conventional memory up to 1 MB. The servers and kickstart are above. */
  method LowMemory() returns (kip: KipManager)
    ensures kip.Valid() && kip.offset == 60 && kip.count == 1
    ensures DescIn(kip.kip[..], 60, 0) == MemoryDesc(CONVENTIONAL, 0, false, 0, 1023)
    ensures forall i :: 0 <= i < 50 ==> kip.kip[i] == 0x20_0000
  {
    var words := new Word[64](_ => 0x20_0000);
    kip := new KipManager(words, 60);
    kip.DedicateMemory(0, 0xF_FFFF, CONVENTIONAL, 0);
  }

  lemma LowRegionsPass(kip: seq<Word>, start: Word)
    requires |kip| >= 62 && DescIn(kip, 60, 0) == MemoryDesc(CONVENTIONAL, 0, false, 0, 1023) && start <= 4096
    requires forall i :: 0 <= i < 50 ==> kip[i] == 0x20_0000
    ensures Passes(kip, 60, 1, [], 0x10_0000, 0x11_0000, start, 4096)
  {
  }

  /** Then both the region at 0 and the next one are free, and none is found. */
  method ZeroIsNowhere() returns (kip: KipManager, r: Placing)
    ensures kip.Valid()
    ensures Passes(kip.kip[..], kip.offset, kip.count, [], 0x10_0000, 0x11_0000, 0, 4096)
    ensures Passes(kip.kip[..], kip.offset, kip.count, [], 0x10_0000, 0x11_0000, 4096, 4096)
    ensures r.Nowhere?
  {
    kip := LowMemory();
    LowRegionsPass(kip.kip[..], 0);
    LowRegionsPass(kip.kip[..], 4096);
    var max;
    ghost var k;
    ghost var pass := Test(kip.kip[..], kip.offset, kip.count, [], 0x10_0000, 0x11_0000, 4096);
    r, max, k := FindFreeRegion(kip, [], 0x10_0000, 0x11_0000, 4096, pass);
    assert Multiple(0, 4096) && pass(0);
    assert IsMain(DescIn(kip.kip[..], 60, 0));
  }
}
