/** Loading an ELF executable: all at once, segment after segment, or page by page as faults ask for it. The executable
    is `file`, as it is found in memory with its header at address `hdr`; what is read there does not change. */
module Elf {
  import opened Words

  const PAGE: Word := 0x1000

  /** A program header; `load` stands for the type PT_LOAD. */
  datatype Phdr = Phdr(load: bool, offset: Word, vaddr: Word, filesz: Word, memsz: Word)

  // ----- the headers of an executable -----

  /** Where the header keeps the entry point, the offset of the program headers and their number, and the size of one. */
  const ENTRY_POINT: Word := 24
  const PHOFF: Word := 28
  const PHNUM: Word := 44
  const PHENT := 32
  const PT_LOAD := 1

  /** Two bytes, and four, the lowest first. */
  function HalfIn(file: Word -> Byte, a: Word): (r: Word)
    ensures r < 0x1_0000
  {
    file(a) + 0x100 * file(Add(a, 1))
  }

  function WordIn(file: Word -> Byte, a: Word): Word {
    HalfIn(file, a) + 0x1_0000 * HalfIn(file, Add(a, 2))
  }

  function PhdrIn(file: Word -> Byte, a: Word): Phdr {
    Phdr(WordIn(file, a) == PT_LOAD, WordIn(file, Add(a, 4)), WordIn(file, Add(a, 8)), WordIn(file, Add(a, 16)), WordIn(file, Add(a, 20)))
  }

  function HeaderCount(file: Word -> Byte, hdr: Word): (n: Word)
    ensures n < 0x1_0000
  {
    HalfIn(file, Add(hdr, PHNUM))
  }

  /** The place of program header `i`. */
  function PhdrAt(file: Word -> Byte, hdr: Word, i: nat): Word
    requires i < 0x1_0000
  {
    Add(Add(WordIn(file, Add(hdr, PHOFF)), hdr), PHENT * i)
  }

  /** The program headers of the executable whose header is at `hdr`. */
  function HeadersIn(file: Word -> Byte, hdr: Word): (r: seq<Phdr>)
    ensures |r| == HeaderCount(file, hdr)
  {
    seq(HeaderCount(file, hdr), i requires 0 <= i < HeaderCount(file, hdr) => PhdrIn(file, PhdrAt(file, hdr, i)))
  }

  // ----- all at once -----

  /** The segment's data from the file is copied to address `a`. */
  predicate InFile(p: Phdr, a: Word) {
    Sub(a, p.vaddr) < p.filesz
  }

  /** Address `a` is cleared after the segment's data is copied. */
  predicate Cleared(p: Phdr, a: Word) {
    Sub(a, Add(p.vaddr, p.filesz)) < Sub(p.memsz, p.filesz)
  }

  /** Byte `a` of memory once the first `n` segments are loaded into zeroed memory. */
  ghost function ImageByte(phdrs: seq<Phdr>, n: nat, hdr: Word, file: Word -> Byte, a: Word): Byte
    requires n <= |phdrs|
  {
    if n == 0 then 0
    else
      var p := phdrs[n - 1];
      if p.load && Cleared(p, a) then 0
      else if p.load && InFile(p, a) then file(Add(Add(hdr, p.offset), Sub(a, p.vaddr)))
      else ImageByte(phdrs, n - 1, hdr, file, a)
  }

  /** Copies file data into memory; addresses wrap. */
  method Copy(image: array<Byte>, file: Word -> Byte, to: Word, from: Word, length: Word)
    requires image.Length == WORD
    modifies image
    ensures forall a: Word {:trigger image[a]} ::
              image[a] == if Sub(a, to) < length then file(Add(from, Sub(a, to))) else old(image[a])
  {
    var k: Word := 0;
    while k < length
      invariant k <= length
      invariant forall a: Word {:trigger image[a]} ::
                  image[a] == if Sub(a, to) < k then file(Add(from, Sub(a, to))) else old(image[a])
    {
      image[Add(to, k)] := file(Add(from, k));
      k := k + 1;
    }
  }

  method Clear(image: array<Byte>, to: Word, length: Word)
    requires image.Length == WORD
    modifies image
    ensures forall a: Word {:trigger image[a]} :: image[a] == if Sub(a, to) < length then 0 else old(image[a])
  {
    var k: Word := 0;
    while k < length
      invariant k <= length
      invariant forall a: Word {:trigger image[a]} :: image[a] == if Sub(a, to) < k then 0 else old(image[a])
    {
      image[Add(to, k)] := 0;
      k := k + 1;
    }
  }

  /** Loads the whole image. */
  method LoadImage(image: array<Byte>, phdrs: seq<Phdr>, hdr: Word, file: Word -> Byte)
    requires image.Length == WORD && forall a :: 0 <= a < WORD ==> image[a] == 0
    modifies image
    ensures forall a: Word {:trigger image[a]} :: image[a] == ImageByte(phdrs, |phdrs|, hdr, file, a)
  {
    var i := 0;
    while i < |phdrs|
      invariant 0 <= i <= |phdrs|
      invariant forall a: Word {:trigger image[a]} :: image[a] == ImageByte(phdrs, i, hdr, file, a)
    {
      var p := phdrs[i];
      if p.load {
        Copy(image, file, p.vaddr, Add(hdr, p.offset), p.filesz);
        Clear(image, Add(p.vaddr, p.filesz), Sub(p.memsz, p.filesz));
      }
      i := i + 1;
    }
  }

  // ----- page by page -----

  /** The pager's test whether a page and a segment overlap; the end of the segment wraps. */
  predicate Overlaps(p: Phdr, start: Word)
    requires start + PAGE <= WORD
  {
    start + PAGE - 1 >= p.vaddr && Add(p.vaddr, p.memsz) > start
  }

  function Source(p: Phdr, start: Word): Word {
    if p.vaddr < start then start - p.vaddr else 0
  }

  function Target(p: Phdr, start: Word): Word {
    if p.vaddr > start then p.vaddr - start else 0
  }

  /** How much is copied; what is left of the file data wraps when the page begins behind it. */
  function CopyLength(p: Phdr, start: Word): Word
    requires Target(p, start) <= PAGE
  {
    var left, room := Sub(p.filesz, Source(p, start)), PAGE - Target(p, start);
    if left > room then room else left
  }

  /** The pager copies byte `x` of the page from this segment. */
  predicate Copies(p: Phdr, start: Word, x: int)
    requires start + PAGE <= WORD
  {
    p.load && Overlaps(p, start) && Target(p, start) <= x < Target(p, start) + CopyLength(p, start)
  }

  /** Byte `x` of the page at `start` once the first `n` segments have been looked at. */
  ghost function PageByte(phdrs: seq<Phdr>, n: nat, hdr: Word, file: Word -> Byte, start: Word, x: Word): Byte
    requires n <= |phdrs| && start + PAGE <= WORD && x < PAGE
  {
    if n == 0 then 0
    else
      var p := phdrs[n - 1];
      if Copies(p, start, x) then
        file(Add(Add(Add(hdr, p.offset), Source(p, start)), x - Target(p, start)))
      else PageByte(phdrs, n - 1, hdr, file, start, x)
  }

  /** The page at `start`, found at offset `base` of the frames' memory, after the first `n` segments. */
  ghost predicate Holds(frames: seq<Byte>, base: nat, phdrs: seq<Phdr>, n: nat, hdr: Word, file: Word -> Byte, start: Word)
    requires base + PAGE <= |frames| && n <= |phdrs| && start + PAGE <= WORD
  {
    forall a {:trigger frames[a]} :: base <= a < base + PAGE ==> frames[a] == PageByte(phdrs, n, hdr, file, start, a - base)
  }

  /** Nothing changed but the frame at `base`. */
  ghost predicate OnlyFrame(was: seq<Byte>, now: seq<Byte>, base: nat) {
    |now| == |was| && forall a {:trigger now[a]} :: 0 <= a < |was| && !(base <= a < base + PAGE) ==> now[a] == was[a]
  }

  /** Fills a page frame: cleared first, then copied from each segment that overlaps it. */
  method FillPage(frames: array<Byte>, base: nat, phdrs: seq<Phdr>, hdr: Word, file: Word -> Byte, address: Word)
    requires base + PAGE <= frames.Length
    modifies frames
    ensures AlignDown(address, PAGE) + PAGE <= WORD
    ensures Holds(frames[..], base, phdrs, |phdrs|, hdr, file, AlignDown(address, PAGE))
    ensures OnlyFrame(old(frames[..]), frames[..], base)
  {
    var start := AlignDown(address, PAGE);
    PageFits(address);
    var k: Word := 0;
    while k < PAGE
      invariant k <= PAGE
      invariant forall a {:trigger frames[a]} :: base <= a < base + k ==> frames[a] == 0
      invariant OnlyFrame(old(frames[..]), frames[..], base)
    {
      frames[base + k] := 0;
      k := k + 1;
    }
    var i := 0;
    while i < |phdrs|
      invariant 0 <= i <= |phdrs|
      invariant Holds(frames[..], base, phdrs, i, hdr, file, start)
      invariant OnlyFrame(old(frames[..]), frames[..], base)
    {
      if phdrs[i].load && Overlaps(phdrs[i], start) {
        CopyPart(frames, base, phdrs, i, hdr, file, start);
      }
      i := i + 1;
    }
  }

  lemma PageFits(address: Word)
    ensures AlignDown(address, PAGE) + PAGE <= WORD && AlignDown(address, PAGE) % PAGE == 0
  {
  }

  /** Copies the part of a segment that belongs to a page. */
  method CopyPart(frames: array<Byte>, base: nat, phdrs: seq<Phdr>, i: nat, hdr: Word, file: Word -> Byte, start: Word)
    requires base + PAGE <= frames.Length && start + PAGE <= WORD
    requires i < |phdrs| && phdrs[i].load && Overlaps(phdrs[i], start)
    requires Holds(frames[..], base, phdrs, i, hdr, file, start)
    modifies frames
    ensures Holds(frames[..], base, phdrs, i + 1, hdr, file, start)
    ensures OnlyFrame(old(frames[..]), frames[..], base)
  {
    var p := phdrs[i];
    var s, d, length := Source(p, start), Target(p, start), CopyLength(p, start);
    s := Add(Add(hdr, p.offset), s);
    var k: Word := 0;
    while k < length
      invariant k <= length
      invariant forall a {:trigger frames[a]} :: base <= a < base + PAGE ==>
                  frames[a] == if base + d <= a < base + d + k then file(Add(s, a - base - d)) else old(frames[a])
      invariant OnlyFrame(old(frames[..]), frames[..], base)
    {
      frames[base + d + k] := file(Add(s, k));
      k := k + 1;
    }
  }

  /** What a frame was filled with: the page at `start` of an executable. */
  datatype Window = Window(phdrs: seq<Phdr>, hdr: Word, start: Word)

  /** The frame at offset `base` of the frames' memory holds the window. */
  ghost predicate Intact(frames: seq<Byte>, base: int, w: Window, file: Word -> Byte) {
    && 0 <= base && base + PAGE <= |frames| && w.start + PAGE <= WORD
    && Holds(frames, base, w.phdrs, |w.phdrs|, w.hdr, file, w.start)
  }

  /** Filling another frame leaves it intact. */
  lemma StaysIntact(was: seq<Byte>, now: seq<Byte>, base: int, other: nat, w: Window, file: Word -> Byte)
    requires Intact(was, base, w, file) && OnlyFrame(was, now, other) && (base + PAGE <= other || other + PAGE <= base)
    ensures Intact(now, base, w, file)
  {
  }

  /** The page of an executable that an address belongs to. */
  function PageOf(file: Word -> Byte, hdr: Word, address: Word): Window {
    Window(HeadersIn(file, hdr), hdr, AlignDown(address, PAGE))
  }

  /** Answers a page fault: the frame at `base` is filled with the page of the executable at `hdr`. */
  method LoadPage(frames: array<Byte>, base: nat, hdr: Word, file: Word -> Byte, address: Word)
    requires base + PAGE <= frames.Length
    modifies frames
    ensures Intact(frames[..], base, PageOf(file, hdr, address), file)
    ensures OnlyFrame(old(frames[..]), frames[..], base)
  {
    FillPage(frames, base, HeadersIn(file, hdr), hdr, file, address);
  }

  // ----- the two agree -----

  /** The loadable segments fit the address space and do not overlap, and none has more data than memory. */
  ghost predicate Proper(phdrs: seq<Phdr>) {
    && (forall i {:trigger phdrs[i]} :: 0 <= i < |phdrs| && phdrs[i].load ==>
          phdrs[i].filesz <= phdrs[i].memsz && phdrs[i].vaddr + phdrs[i].memsz < WORD)
    && (forall i, j {:trigger phdrs[i], phdrs[j]} :: 0 <= i < j < |phdrs| && phdrs[i].load && phdrs[j].load ==>
          || phdrs[i].vaddr + phdrs[i].memsz <= phdrs[j].vaddr
          || phdrs[j].vaddr + phdrs[j].memsz <= phdrs[i].vaddr)
  }

  /** The page begins inside the segment, but behind its file data. */
  predicate BehindData(p: Phdr, start: Word) {
    p.load && p.vaddr + p.filesz < start < p.vaddr + p.memsz
  }

  /** For a segment that the page does not begin behind, the pager copies what belongs in the page. */
  lemma CopiesItsPart(p: Phdr, start: Word, x: Word, hdr: Word)
    requires start + PAGE <= WORD && x < PAGE && p.load && p.filesz <= p.memsz && p.vaddr + p.memsz < WORD && !BehindData(p, start)
    ensures Copies(p, start, x) <==> InFile(p, start + x)
    ensures InFile(p, start + x) ==>
              Add(Add(Add(hdr, p.offset), Source(p, start)), x - Target(p, start)) == Add(Add(hdr, p.offset), Sub(start + x, p.vaddr))
  {
  }

  /** What the eagerly loaded image is, as the program header tells: each segment's data, and zeros everywhere else. */
  lemma {:induction false} ImageIsSegments(phdrs: seq<Phdr>, n: nat, hdr: Word, file: Word -> Byte, a: Word)
    requires n <= |phdrs| && Proper(phdrs)
    ensures forall i {:trigger phdrs[i]} :: 0 <= i < n && phdrs[i].load && phdrs[i].vaddr <= a < phdrs[i].vaddr + phdrs[i].filesz ==>
              ImageByte(phdrs, n, hdr, file, a) == file(Add(Add(hdr, phdrs[i].offset), a - phdrs[i].vaddr))
    ensures (forall i {:trigger phdrs[i]} :: 0 <= i < n && phdrs[i].load ==>
               !(phdrs[i].vaddr <= a < phdrs[i].vaddr + phdrs[i].filesz)) ==> ImageByte(phdrs, n, hdr, file, a) == 0
  {
    if n > 0 {
      ImageIsSegments(phdrs, n - 1, hdr, file, a);
    }
  }

  /** Where no segment has data, there are zeros. */
  lemma {:induction false} NoData(phdrs: seq<Phdr>, n: nat, hdr: Word, file: Word -> Byte, a: Word)
    requires n <= |phdrs| && forall i :: 0 <= i < n && phdrs[i].load ==> !InFile(phdrs[i], a)
    ensures ImageByte(phdrs, n, hdr, file, a) == 0
  {
    if n > 0 {
      NoData(phdrs, n - 1, hdr, file, a);
    }
  }

  /** With no page start behind a segment's data, byte `x` of the page is the image's. */
  lemma {:induction false} SameByte(phdrs: seq<Phdr>, n: nat, hdr: Word, file: Word -> Byte, start: Word, x: Word)
    requires n <= |phdrs| && Proper(phdrs) && start + PAGE <= WORD && x < PAGE
    requires forall i {:trigger phdrs[i]} :: 0 <= i < |phdrs| ==> !BehindData(phdrs[i], start)
    ensures PageByte(phdrs, n, hdr, file, start, x) == ImageByte(phdrs, n, hdr, file, start + x)
  {
    if n > 0 {
      var p := phdrs[n - 1];
      SameByte(phdrs, n - 1, hdr, file, start, x);
      if p.load {
        CopiesItsPart(p, start, x, hdr);
        if Cleared(p, start + x) {
          NoData(phdrs, n - 1, hdr, file, start + x);
        }
      }
    }
  }

  /** A frame that holds its window holds that part of the eagerly loaded image, unless the page begins behind the data of a
      segment that goes on. */
  lemma WindowIsImage(frames: seq<Byte>, base: int, w: Window, file: Word -> Byte, x: Word)
    requires Intact(frames, base, w, file) && x < PAGE
    requires Proper(w.phdrs) && forall i {:trigger w.phdrs[i]} :: 0 <= i < |w.phdrs| ==> !BehindData(w.phdrs[i], w.start)
    ensures frames[base + x] == ImageByte(w.phdrs, |w.phdrs|, w.hdr, file, w.start + x)
  {
    SameByte(w.phdrs, |w.phdrs|, w.hdr, file, w.start, x);
    assert frames[base + x] == PageByte(w.phdrs, |w.phdrs|, w.hdr, file, w.start, x);
  }

  /** The frame at `base` holds the window of the eagerly loaded image. */
  ghost predicate ImagePage(frames: seq<Byte>, base: int, w: Window, file: Word -> Byte) {
    && 0 <= base && base + PAGE <= |frames| && w.start + PAGE <= WORD
    && forall k {:trigger frames[k]} :: base <= k < base + PAGE ==>
         frames[k] == ImageByte(w.phdrs, |w.phdrs|, w.hdr, file, w.start + (k - base))
  }

  lemma WindowIsImagePage(frames: seq<Byte>, base: int, w: Window, file: Word -> Byte)
    requires Intact(frames, base, w, file)
    requires Proper(w.phdrs) && forall i {:trigger w.phdrs[i]} :: 0 <= i < |w.phdrs| ==> !BehindData(w.phdrs[i], w.start)
    ensures ImagePage(frames, base, w, file)
  {
    forall k {:trigger frames[k]} | base <= k < base + PAGE
      ensures frames[k] == ImageByte(w.phdrs, |w.phdrs|, w.hdr, file, w.start + (k - base))
    {
      WindowIsImage(frames, base, w, file, k - base);
    }
  }

  /** When every byte of the file is the same, a byte copied from any segment stays. */
  lemma {:induction false} CopiedOnce(phdrs: seq<Phdr>, n: nat, i: nat, hdr: Word, file: Word -> Byte, start: Word, x: Word)
    requires i < n <= |phdrs| && start + PAGE <= WORD && x < PAGE && Copies(phdrs[i], start, x) && forall a :: file(a) == 1
    ensures PageByte(phdrs, n, hdr, file, start, x) == 1
  {
    if n - 1 > i {
      CopiedOnce(phdrs, n - 1, i, hdr, file, start, x);
    }
  }

  /** A page that begins behind a segment's data is filled with whatever follows the data in the file. */
  lemma BehindDataDiffers(phdrs: seq<Phdr>, i: nat, hdr: Word, start: Word) returns (file: Word -> Byte)
    requires Proper(phdrs) && i < |phdrs| && start + PAGE <= WORD && start % PAGE == 0 && BehindData(phdrs[i], start)
    ensures PageByte(phdrs, |phdrs|, hdr, file, start, 0) != ImageByte(phdrs, |phdrs|, hdr, file, start)
  {
    file := _ => 1;
    var p := phdrs[i];
    assert Copies(p, start, 0);
    CopiedOnce(phdrs, |phdrs|, i, hdr, file, start, 0);
    NoData(phdrs, |phdrs|, hdr, file, start);
  }

  /** Demand paging fills a page with the window of the eagerly loaded image, for every content of the file, exactly when
      the page does not begin behind the data of a segment that goes on. */
  lemma LazyIsEager(phdrs: seq<Phdr>, hdr: Word, start: Word)
    requires Proper(phdrs) && start + PAGE <= WORD && start % PAGE == 0
    ensures (forall file: Word -> Byte, x: Word :: x < PAGE ==>
               PageByte(phdrs, |phdrs|, hdr, file, start, x) == ImageByte(phdrs, |phdrs|, hdr, file, start + x))
            <==> forall i :: 0 <= i < |phdrs| ==> !BehindData(phdrs[i], start)
  {
    if i :| 0 <= i < |phdrs| && BehindData(phdrs[i], start) {
      var file := BehindDataDiffers(phdrs, i, hdr, start);
      assert PageByte(phdrs, |phdrs|, hdr, file, start, 0) != ImageByte(phdrs, |phdrs|, hdr, file, start + 0);
    } else {
      forall file: Word -> Byte, x: Word | x < PAGE
        ensures PageByte(phdrs, |phdrs|, hdr, file, start, x) == ImageByte(phdrs, |phdrs|, hdr, file, start + x)
      {
        SameByte(phdrs, |phdrs|, hdr, file, start, x);
      }
    }
  }
}
