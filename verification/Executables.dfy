/** Executables as bytes: the ELF header and the program headers of chapters 4 and 5 of the System V ABI, for 32-bit files with
    the lowest byte first; and that the loader reads them back. */
module Executables {
  import opened Words
  import opened Elf

  /** The fields of a program header, in their order. */
  datatype Segment = Segment(kind: Word, offset: Word, vaddr: Word, paddr: Word, filesz: Word, memsz: Word, flags: Word, align: Word)

  /** The fields of the ELF header, in their order. */
  datatype Header = Header(ident: seq<Byte>, kind: Word, machine: Word, version: Word, entry: Word, phoff: Word, shoff: Word, flags: Word,
                           ehsize: Word, phentsize: Word, phnum: Word, shentsize: Word, shnum: Word, shstrndx: Word)

  function Half(w: Word): (r: seq<Byte>)
    ensures |r| == 2
  {
    [w % 0x100, w / 0x100 % 0x100]
  }

  function Full(w: Word): (r: seq<Byte>)
    ensures |r| == 4
  {
    var w1 := w / 0x100;
    var w2 := w1 / 0x100;
    [w % 0x100, w1 % 0x100, w2 % 0x100, w2 / 0x100]
  }

  function SegmentBytes(g: Segment): (r: seq<Byte>)
    ensures |r| == 32
  {
    Full(g.kind) + (Full(g.offset) + (Full(g.vaddr) + (Full(g.paddr) + (Full(g.filesz) + (Full(g.memsz) + (Full(g.flags) + Full(g.align)))))))
  }

  function TableBytes(gs: seq<Segment>): (r: seq<Byte>)
    ensures |r| == 32 * |gs|
  {
    if gs == [] then [] else TableBytes(gs[..|gs| - 1]) + SegmentBytes(gs[|gs| - 1])
  }

  function HeaderBytes(h: Header): seq<Byte> {
    h.ident + (Half(h.kind) + (Half(h.machine) + (Full(h.version) + (Full(h.entry) + (Full(h.phoff) + SectionBytes(h))))))
  }

  /** From the offset of the section headers on. */
  function SectionBytes(h: Header): seq<Byte> {
    Full(h.shoff) + (Full(h.flags)
    + (Half(h.ehsize) + (Half(h.phentsize) + (Half(h.phnum) + (Half(h.shentsize) + (Half(h.shnum) + Half(h.shstrndx)))))))
  }

  /** Where the fields of a program header are, by the standard. */
  lemma SegmentLayout(g: Segment)
    ensures var s := SegmentBytes(g);
            && s[0..4] == Full(g.kind) && s[4..8] == Full(g.offset) && s[8..12] == Full(g.vaddr) && s[12..16] == Full(g.paddr)
            && s[16..20] == Full(g.filesz) && s[20..24] == Full(g.memsz) && s[24..28] == Full(g.flags) && s[28..32] == Full(g.align)
  {
  }

  /** Where the header keeps the entry point, the offset of the program headers and their number, by the standard. */
  lemma HeaderLayout(h: Header)
    requires |h.ident| == 16
    ensures var s := HeaderBytes(h);
            && |s| == 52 && s[..16] == h.ident && s[24..28] == Full(h.entry) && s[28..32] == Full(h.phoff) && s[44..46] == Half(h.phnum)
  {
    assert HeaderBytes(h)[32..] == SectionBytes(h) && SectionBytes(h)[12..14] == Half(h.phnum);
  }

  /** These bytes are read from address `a` on; addresses wrap. */
  ghost predicate BytesAt(file: Word -> Byte, a: Word, s: seq<Byte>) {
    |s| <= MAX && forall i: Word {:trigger s[i]} :: i < |s| ==> file(Add(a, i)) == s[i]
  }

  /** An executable with these headers is found at `hdr`. */
  ghost predicate IsExecutable(file: Word -> Byte, hdr: Word, h: Header, gs: seq<Segment>) {
    && |h.ident| == 16 && h.phnum == |gs| < 0x1_0000
    && BytesAt(file, hdr, HeaderBytes(h)) && BytesAt(file, Add(hdr, h.phoff), TableBytes(gs))
  }

  // ----- reading bytes -----

  lemma BytesSplit(file: Word -> Byte, a: Word, s: seq<Byte>, t: seq<Byte>)
    requires BytesAt(file, a, s + t)
    ensures BytesAt(file, a, s) && BytesAt(file, Add(a, |s|), t)
  {
    forall i: Word | i < |s|
      ensures file(Add(a, i)) == s[i]
    {
      assert (s + t)[i] == s[i];
    }
    forall i: Word | i < |t|
      ensures file(Add(Add(a, |s|), i)) == t[i]
    {
      assert (s + t)[|s| + i] == t[i];
      assert Add(Add(a, |s|), i) == Add(a, |s| + i);
    }
  }

  lemma HalfRead(file: Word -> Byte, a: Word, w: Word)
    requires BytesAt(file, a, Half(w)) && w < 0x1_0000
    ensures HalfIn(file, a) == w
  {
    assert Half(w)[0] == w % 0x100 && Half(w)[1] == w / 0x100;
    assert file(Add(a, 0)) == Half(w)[0] && file(Add(a, 1)) == Half(w)[1];
  }

  lemma FullValue(w: Word)
    ensures var s := Full(w); w == s[0] as int + 0x100 * (s[1] as int) + 0x1_0000 * (s[2] as int) + 0x100_0000 * (s[3] as int)
  {
  }

  lemma FullRead(file: Word -> Byte, a: Word, w: Word)
    requires BytesAt(file, a, Full(w))
    ensures WordIn(file, a) == w
  {
    var s := Full(w);
    assert file(Add(a, 0)) == s[0] && file(Add(a, 1)) == s[1] && file(Add(a, 2)) == s[2] && file(Add(a, 3)) == s[3];
    assert Add(Add(a, 2), 1) == Add(a, 3);
    FullValue(w);
  }

  // ----- the headers are read back -----

  lemma SegmentRead(file: Word -> Byte, a: Word, g: Segment)
    requires BytesAt(file, a, SegmentBytes(g))
    ensures PhdrIn(file, a) == Phdr(g.kind == 1, g.offset, g.vaddr, g.filesz, g.memsz)
  {
    var tail := Full(g.flags) + Full(g.align);
    var memory := Full(g.memsz) + tail;
    var data := Full(g.filesz) + memory;
    var physical := Full(g.paddr) + data;
    var place := Full(g.vaddr) + physical;
    var offset := Full(g.offset) + place;
    BytesSplit(file, a, Full(g.kind), offset);
    BytesSplit(file, Add(a, 4), Full(g.offset), place);
    BytesSplit(file, Add(a, 8), Full(g.vaddr), physical);
    BytesSplit(file, Add(a, 12), Full(g.paddr), data);
    BytesSplit(file, Add(a, 16), Full(g.filesz), memory);
    BytesSplit(file, Add(a, 20), Full(g.memsz), tail);
    FullRead(file, a, g.kind);
    FullRead(file, Add(a, 4), g.offset);
    FullRead(file, Add(a, 8), g.vaddr);
    FullRead(file, Add(a, 16), g.filesz);
    FullRead(file, Add(a, 20), g.memsz);
  }

  lemma {:induction false} InTable(file: Word -> Byte, a: Word, gs: seq<Segment>, i: nat)
    requires BytesAt(file, a, TableBytes(gs)) && i < |gs|
    ensures 32 * i <= MAX && BytesAt(file, Add(a, 32 * i), SegmentBytes(gs[i]))
  {
    var front := gs[..|gs| - 1];
    BytesSplit(file, a, TableBytes(front), SegmentBytes(gs[|gs| - 1]));
    if i < |gs| - 1 {
      InTable(file, a, front, i);
    }
  }

  lemma HeaderRead(file: Word -> Byte, hdr: Word, h: Header)
    requires |h.ident| == 16 && h.phnum < 0x1_0000 && BytesAt(file, hdr, HeaderBytes(h))
    ensures WordIn(file, Add(hdr, ENTRY_POINT)) == h.entry && WordIn(file, Add(hdr, PHOFF)) == h.phoff
    ensures HalfIn(file, Add(hdr, PHNUM)) == h.phnum
  {
    var program := Full(h.entry) + (Full(h.phoff) + SectionBytes(h));
    var version := Full(h.version) + program;
    var machine := Half(h.machine) + version;
    BytesSplit(file, hdr, h.ident, Half(h.kind) + machine);
    BytesSplit(file, Add(hdr, 16), Half(h.kind), machine);
    BytesSplit(file, Add(hdr, 18), Half(h.machine), version);
    BytesSplit(file, Add(hdr, 20), Full(h.version), program);
    ProgramRead(file, Add(hdr, 24), h);
  }

  lemma ProgramRead(file: Word -> Byte, a: Word, h: Header)
    requires h.phnum < 0x1_0000 && BytesAt(file, a, Full(h.entry) + (Full(h.phoff) + SectionBytes(h)))
    ensures WordIn(file, a) == h.entry && WordIn(file, Add(a, 4)) == h.phoff && HalfIn(file, Add(a, 20)) == h.phnum
  {
    BytesSplit(file, a, Full(h.entry), Full(h.phoff) + SectionBytes(h));
    BytesSplit(file, Add(a, 4), Full(h.phoff), SectionBytes(h));
    FullRead(file, a, h.entry);
    FullRead(file, Add(a, 4), h.phoff);
    SectionRead(file, Add(a, 8), h);
  }

  lemma SectionRead(file: Word -> Byte, a: Word, h: Header)
    requires h.phnum < 0x1_0000 && BytesAt(file, a, SectionBytes(h))
    ensures HalfIn(file, Add(a, 12)) == h.phnum
  {
    var tail := Half(h.shentsize) + (Half(h.shnum) + Half(h.shstrndx));
    var number := Half(h.phnum) + tail;
    var size := Half(h.phentsize) + number;
    var own := Half(h.ehsize) + size;
    BytesSplit(file, a, Full(h.shoff), Full(h.flags) + own);
    BytesSplit(file, Add(a, 4), Full(h.flags), own);
    BytesSplit(file, Add(a, 8), Half(h.ehsize), size);
    BytesSplit(file, Add(a, 10), Half(h.phentsize), number);
    BytesSplit(file, Add(a, 12), Half(h.phnum), tail);
    HalfRead(file, Add(a, 12), h.phnum);
  }

  /** What the loader needs of the segments. */
  function Loads(gs: seq<Segment>): (r: seq<Phdr>)
    ensures |r| == |gs|
  {
    seq(|gs|, i requires 0 <= i < |gs| => Phdr(gs[i].kind == 1, gs[i].offset, gs[i].vaddr, gs[i].filesz, gs[i].memsz))
  }

  /** The entry point and the program headers are read back from the bytes of any executable. */
  lemma ExecutableRead(file: Word -> Byte, hdr: Word, h: Header, gs: seq<Segment>)
    requires IsExecutable(file, hdr, h, gs)
    ensures WordIn(file, Add(hdr, ENTRY_POINT)) == h.entry
    ensures |HeadersIn(file, hdr)| == |gs| && HeadersIn(file, hdr) == Loads(gs)
    ensures forall i {:trigger gs[i]} :: 0 <= i < |gs| ==>
              HeadersIn(file, hdr)[i] == Phdr(gs[i].kind == 1, gs[i].offset, gs[i].vaddr, gs[i].filesz, gs[i].memsz)
  {
    HeaderRead(file, hdr, h);
    forall i | 0 <= i < |gs|
      ensures HeadersIn(file, hdr)[i] == Phdr(gs[i].kind == 1, gs[i].offset, gs[i].vaddr, gs[i].filesz, gs[i].memsz)
    {
      InTable(file, Add(hdr, h.phoff), gs, i);
      SegmentRead(file, Add(Add(hdr, h.phoff), 32 * i), gs[i]);
      assert PhdrAt(file, hdr, i) == Add(Add(hdr, h.phoff), 32 * i);
    }
  }

  /** The byte of a program at address `a`: each segment's data from the file, and zero where no segment has data. */
  ghost predicate ProgramByte(file: Word -> Byte, hdr: Word, gs: seq<Segment>, a: Word, b: Byte) {
    && (forall i {:trigger gs[i]} :: 0 <= i < |gs| && gs[i].kind == 1 && gs[i].vaddr <= a < gs[i].vaddr + gs[i].filesz ==>
          b == file(Add(Add(hdr, gs[i].offset), a - gs[i].vaddr)))
    && ((forall i {:trigger gs[i]} :: 0 <= i < |gs| && gs[i].kind == 1 ==> !(gs[i].vaddr <= a < gs[i].vaddr + gs[i].filesz)) ==> b == 0)
  }

  /** The frame at `base` holds the page of the program at `start`. */
  ghost predicate ProgramPage(file: Word -> Byte, hdr: Word, gs: seq<Segment>, start: Word, frames: seq<Byte>, base: int) {
    && start + PAGE <= WORD && 0 <= base && base + PAGE <= |frames|
    && forall k {:trigger frames[k]} :: base <= k < base + PAGE ==> ProgramByte(file, hdr, gs, start + (k - base), frames[k])
  }

  /** Segments that are loaded fit the address space, do not overlap, and have no more data than memory. */
  ghost predicate ProperSegments(gs: seq<Segment>) {
    && (forall i {:trigger gs[i]} :: 0 <= i < |gs| && gs[i].kind == 1 ==>
          gs[i].filesz <= gs[i].memsz && gs[i].vaddr + gs[i].memsz < WORD)
    && (forall i, j {:trigger gs[i], gs[j]} :: 0 <= i < j < |gs| && gs[i].kind == 1 && gs[j].kind == 1 ==>
          gs[i].vaddr + gs[i].memsz <= gs[j].vaddr || gs[j].vaddr + gs[j].memsz <= gs[i].vaddr)
  }

  /** The page begins behind the data of no segment that goes on. */
  ghost predicate BeginsWell(gs: seq<Segment>, start: Word) {
    forall i {:trigger gs[i]} :: 0 <= i < |gs| && gs[i].kind == 1 ==> !(gs[i].vaddr + gs[i].filesz < start < gs[i].vaddr + gs[i].memsz)
  }

  /** A frame that holds a window of an executable holds a page of the program. */
  lemma WindowIsProgram(file: Word -> Byte, h: Header, gs: seq<Segment>, w: Window, frames: seq<Byte>, base: int)
    requires IsExecutable(file, w.hdr, h, gs) && w.phdrs == HeadersIn(file, w.hdr) && Intact(frames, base, w, file)
    requires ProperSegments(gs) && BeginsWell(gs, w.start)
    ensures ProgramPage(file, w.hdr, gs, w.start, frames, base)
  {
    ExecutableRead(file, w.hdr, h, gs);
    forall k {:trigger frames[k]} | base <= k < base + PAGE
      ensures ProgramByte(file, w.hdr, gs, w.start + (k - base), frames[k])
    {
      WindowByte(file, gs, w, frames, base, k - base);
    }
  }

  lemma WindowByte(file: Word -> Byte, gs: seq<Segment>, w: Window, frames: seq<Byte>, base: int, x: Word)
    requires w.phdrs == Loads(gs) && Intact(frames, base, w, file) && x < PAGE
    requires ProperSegments(gs) && BeginsWell(gs, w.start)
    ensures ProgramByte(file, w.hdr, gs, w.start + x, frames[base + x])
  {
    LoadsProper(gs, w.start);
    WindowIsImage(frames, base, w, file, x);
    LoadedByte(gs, w.hdr, file, w.start + x);
  }

  lemma LoadsProper(gs: seq<Segment>, start: Word)
    requires ProperSegments(gs) && BeginsWell(gs, start)
    ensures Proper(Loads(gs)) && forall i {:trigger Loads(gs)[i]} :: 0 <= i < |gs| ==> !BehindData(Loads(gs)[i], start)
  {
  }

  lemma LoadedByte(gs: seq<Segment>, hdr: Word, file: Word -> Byte, a: Word)
    requires ProperSegments(gs)
    ensures ProgramByte(file, hdr, gs, a, ImageByte(Loads(gs), |gs|, hdr, file, a))
  {
    assert BeginsWell(gs, 0);
    LoadsProper(gs, 0);
    ImageIsSegments(Loads(gs), |gs|, hdr, file, a);
    assert forall i {:trigger gs[i]} {:trigger Loads(gs)[i]} :: 0 <= i < |gs| ==>
        Loads(gs)[i] == Phdr(gs[i].kind == 1, gs[i].offset, gs[i].vaddr, gs[i].filesz, gs[i].memsz);
  }
}
