/** The pager of boot modules: frames from a bit map, filled on demand, and the table that tells which module a thread
    runs. */
module RamDsm {
  import opened Words
  import opened Wrappers
  import opened Elf
  import opened Bootinfo
  import opened Executables

  const MEMORY: Word := 0x0200_0000
  const FRAMES := 0x2000
  const BITS := 32
  const ASSOCIATIONS := 64

  datatype Association = Association(thread: Word, mod: Word)

  /** Why a frame was filled: for which thread, whether the thread was associated with a module then, and with which page. */
  datatype Mapping = Mapping(thread: Word, named: bool, window: Window)

  /** How a request ends. `Strays` reads a record behind the last one. */
  datatype Outcome = Done | Panics | Strays

  function ModuleOf(table: seq<Association>, thread: Word): Word {
    if table == [] then 0
    else if table[0].thread == thread then table[0].mod
    else ModuleOf(table[1..], thread)
  }

  ghost predicate Named(table: seq<Association>, thread: Word) {
    exists i :: 0 <= i < |table| && table[i].thread == thread
  }

  /** A thread that is associated keeps its module, whatever is appended; a new thread gets the module it is given. */
  lemma {:induction false} AppendKeeps(table: seq<Association>, a: Association, thread: Word)
    ensures Named(table + [a], thread) <==> Named(table, thread) || thread == a.thread
    ensures ModuleOf(table + [a], thread) ==
            if Named(table, thread) then ModuleOf(table, thread) else if thread == a.thread then a.mod else 0
  {
    assert (table + [a])[|table|] == a;
    assert forall i :: 0 <= i < |table| ==> (table + [a])[i] == table[i];
    if table == [] {
      assert table + [a] == [a] && [a][1..] == [];
    } else {
      assert (table + [a])[1..] == table[1..] + [a];
      AppendKeeps(table[1..], a, thread);
      if table[0].thread != thread && Named(table, thread) {
        var i :| 0 <= i < |table| && table[i].thread == thread;
        assert table[1..][i - 1].thread == thread;
      }
    }
  }

  /** The page comes from the executable of boot record `mod`. */
  ghost predicate IsPageOf(entries: seq<Entry>, mod: Word, file: Word -> Byte, w: Window) {
    mod < |entries| && entries[mod].Module? && w == Window(HeadersIn(file, entries[mod].start), entries[mod].start, w.start)
  }

  /** The frame was filled for a thread without association, or with a page of the module that the thread's first association
      names. */
  ghost predicate FromModule(entries: seq<Entry>, table: seq<Association>, file: Word -> Byte, m: Mapping) {
    m.named ==> Named(table, m.thread) && IsPageOf(entries, ModuleOf(table, m.thread), file, m.window)
  }

  ghost predicate FromModules(entries: seq<Entry>, table: seq<Association>, file: Word -> Byte, mapped: map<int, Mapping>) {
    forall f {:trigger mapped[f]} :: f in mapped ==> FromModule(entries, table, file, mapped[f])
  }

  /** More associations change nothing for the frames that are filled. */
  lemma StillFromModules(entries: seq<Entry>, table: seq<Association>, a: Association, file: Word -> Byte, mapped: map<int, Mapping>)
    requires FromModules(entries, table, file, mapped)
    ensures FromModules(entries, table + [a], file, mapped)
  {
    forall f | f in mapped
      ensures FromModule(entries, table + [a], file, mapped[f])
    {
      AppendKeeps(table, a, mapped[f].thread);
    }
  }

  class RamDsm {
    /** The frames' memory, and the words of the bit map, each given by the bits that are set. */
    const frames: array<Byte>
    const available: array<set<int>>
    /** What is read at the addresses of the modules. */
    const file: Word -> Byte
    const table: array<Association>
    /** The bootinfo structure and the records in it. */
    const info: array<Byte>
    ghost const entries: seq<Entry>
    var freePos: nat
    ghost var mapped: map<int, Mapping>

    /** The bit of frame `f`. */
    ghost predicate Available(f: int)
      requires available.Length == FRAMES / BITS && 0 <= f < FRAMES
      reads available
    {
      f % BITS in available[f / BITS]
    }

    ghost predicate Valid()
      reads this, frames, available, table, info
    {
      && frames.Length == MEMORY && available.Length == FRAMES / BITS && frames != info
      && table.Length == ASSOCIATIONS && freePos < ASSOCIATIONS
      && (forall f {:trigger mapped[f]} :: f in mapped ==>
            0 <= f < FRAMES && Intact(frames[..], f * PAGE, mapped[f].window, file) && !Available(f))
      && FromModules(entries, table[..freePos], file, mapped)
      && BootRecords()
    }

    ghost predicate BootRecords()
      reads info
    {
      && info.Length < WORD && |entries| < WORD && Offset(entries, |entries|) < WORD && Bootinfo.Holds(info[..], entries, |entries|)
      && forall k {:trigger entries[k]} :: 0 <= k < |entries| ==> ValidEntry(entries[k])
    }

    constructor (bitmap: seq<set<int>>, file: Word -> Byte, info: array<Byte>, ghost entries: seq<Entry>)
      requires |bitmap| == FRAMES / BITS
      requires info.Length < WORD && |entries| < WORD && Offset(entries, |entries|) < WORD && Bootinfo.Holds(info[..], entries, |entries|)
      requires forall k {:trigger entries[k]} :: 0 <= k < |entries| ==> ValidEntry(entries[k])
      ensures Valid() && fresh(frames) && fresh(available) && fresh(table) && this.info == info && this.entries == entries
      ensures available[..] == bitmap && mapped == map[] && freePos == 0 && this.file == file
      ensures frames.Length == 0x200_0000 && available.Length == 0x2000 / 32 && table.Length == 64
    {
      this.file, this.info, this.entries := file, info, entries;
      frames := new Byte[MEMORY](_ => 0);
      available := new set<int>[FRAMES / BITS](i requires 0 <= i < |bitmap| => bitmap[i]);
      table := new Association[ASSOCIATIONS](_ => Association(0, 0));
      freePos := 0;
      mapped := map[];
    }

    /** The lowest frame whose bit is set; the bit is cleared. */
    method GetFreePage() returns (f: Option<nat>)
      requires available.Length == FRAMES / BITS
      modifies available
      ensures f == None ==> available[..] == old(available[..]) && forall g :: 0 <= g < FRAMES ==> !old(Available(g))
      ensures f.Some? ==>
                && f.value < FRAMES && old(Available(f.value)) && !Available(f.value)
                && (forall g :: 0 <= g < f.value ==> !old(Available(g)))
                && forall g :: 0 <= g < FRAMES && g != f.value ==> (Available(g) <==> old(Available(g)))
    {
      var i: Word := 0;
      ghost var g := 0;
      while i < MEMORY
        invariant i == g * PAGE && 0 <= g <= FRAMES
        invariant forall h :: 0 <= h < g ==> !Available(h)
      {
        assert i / 0x2_0000 == g / BITS && i / PAGE % BITS == g % BITS;
        if i / PAGE % BITS in available[i / 0x2_0000] {
          available[i / 0x2_0000] := available[i / 0x2_0000] - {i / PAGE % BITS};
          assert forall h :: 0 <= h < FRAMES && h / BITS == g / BITS && h % BITS == g % BITS ==> h == g;
          return Some(i / PAGE);
        }
        i := i + PAGE;
        g := g + 1;
      }
      return None;
    }

    /** Takes a frame that was available and fills it with a page; what was mapped before stays as it is. */
    method Provide(thread: Word, hdr: Word, address: Word) returns (f: Option<nat>)
      requires Valid()
      requires Named(table[..freePos], thread) ==> IsPageOf(entries, ModuleOf(table[..freePos], thread), file, PageOf(file, hdr, address))
      modifies this`mapped, frames, available
      ensures Valid()
      ensures f == None <==> forall g :: 0 <= g < FRAMES ==> !old(Available(g))
      ensures f == None ==> mapped == old(mapped)
      ensures f.Some? ==>
                && f.value < FRAMES && old(Available(f.value)) && f.value !in old(mapped)
                && mapped == old(mapped)[f.value := Mapping(thread, Named(table[..freePos], thread), PageOf(file, hdr, address))]
    {
      f := GetFreePage();
      if f.Some? {
        ghost var was := frames[..];
        LoadPage(frames, f.value * PAGE, hdr, file, address);
        forall g | g in mapped
          ensures Intact(frames[..], g * PAGE, mapped[g].window, file)
        {
          StaysIntact(was, frames[..], g * PAGE, f.value * PAGE, mapped[g].window, file);
        }
        mapped := mapped[f.value := Mapping(thread, Named(table[..freePos], thread), PageOf(file, hdr, address))];
      }
    }

    /** The executable's header of a boot record, which has to be that of a module. */
    method FindHeader(mod: Word) returns (o: Outcome, hdr: Word)
      requires BootRecords()
      ensures o == if mod == |entries| then Strays else if mod < |entries| && entries[mod].Module? then Done else Panics
      ensures o.Done? ==> hdr == entries[mod].start
    {
      hdr := 0;
      var rec := FindModule(info, mod, entries);
      if rec == None {
        return Panics, hdr;
      }
      if mod == GetWord(info, NUM_ENTRIES) {
        // the record is read from what follows the last one
        return Strays, hdr;
      }
      RecordInside(info[..], rec.value, entries[mod]);
      if GetWord(info, rec.value) != MODULE {
        return Panics, hdr;
      }
      return Done, GetWord(info, rec.value + 12);
    }

    /** Answers a page fault: the module is that of the thread's first association, or number 0 for a thread that has none. */
    method Fault(thread: Word, address: Word) returns (o: Outcome, f: nat)
      requires Valid()
      modifies this`mapped, frames, available
      ensures Valid()
      ensures var mod := ModuleOf(table[..freePos], thread);
              && (o.Strays? <==> mod == |entries|)
              && (o.Done? <==> mod < |entries| && entries[mod].Module? && exists g :: 0 <= g < FRAMES && old(Available(g)))
              && (o.Done? ==>
                    && f < FRAMES && old(Available(f)) && f !in old(mapped)
                    && mapped == old(mapped)[f := Mapping(thread, Named(table[..freePos], thread), PageOf(file, entries[mod].start, address))])
      ensures !o.Done? ==> mapped == old(mapped)
    {
      f := 0;
      var mod := GetModuleId(thread);
      var hdr;
      o, hdr := FindHeader(mod);
      if o.Done? {
        assert forall g {:trigger old(Available(g))} :: 0 <= g < FRAMES ==> (Available(g) <==> old(Available(g)));
        var frame := Provide(thread, hdr, address);
        if frame == None {
          return Panics, f;
        }
        f := frame.value;
      }
    }

    /** Adds an association; the last place of the table is never used. */
    method Append(thread: Word, mod: Word) returns (ok: bool)
      requires Valid()
      modifies this`freePos, table
      ensures Valid() && ok == (old(freePos) < ASSOCIATIONS - 1)
      ensures table[..freePos] == old(table[..freePos]) + if ok then [Association(thread, mod)] else []
    {
      ok := freePos < ASSOCIATIONS - 1;
      if ok {
        StillFromModules(entries, table[..freePos], Association(thread, mod), file, mapped);
        table[freePos] := Association(thread, mod);
        freePos := freePos + 1;
        assert table[..freePos] == old(table[..freePos]) + [Association(thread, mod)];
      }
    }

    /** A thread runs a module from its entry point on. It is associated before the module is looked up. */
    method AssociateImage(thread: Word, mod: Word) returns (o: Outcome, ip: Word)
      requires Valid()
      modifies this`freePos, table
      ensures Valid()
      ensures o == if old(freePos) == ASSOCIATIONS - 1 then Panics else if mod == |entries| then Strays
                   else if mod < |entries| && entries[mod].Module? then Done else Panics
      ensures table[..freePos] == old(table[..freePos]) + if old(freePos) < ASSOCIATIONS - 1 then [Association(thread, mod)] else []
      ensures o.Done? ==> ip == WordIn(file, Add(entries[mod].start, ENTRY_POINT))
      ensures forall h, gs {:trigger IsExecutable(file, entries[mod].start, h, gs)} ::
                o.Done? && IsExecutable(file, entries[mod].start, h, gs) ==> ip == h.entry
    {
      ip := 0;
      var ok := Append(thread, mod);
      if !ok {
        return Panics, ip;
      }
      var hdr;
      o, hdr := FindHeader(mod);
      if o.Done? {
        ip := WordIn(file, Add(hdr, ENTRY_POINT));
        forall h, gs | IsExecutable(file, hdr, h, gs)
          ensures ip == h.entry
        {
          ExecutableRead(file, hdr, h, gs);
        }
      }
    }

    /** A thread runs what another one runs. */
    method CopyAssociation(from: Word, to: Word) returns (o: Outcome)
      requires Valid()
      modifies this`freePos, table
      ensures Valid() && o == if old(freePos) == ASSOCIATIONS - 1 then Panics else Done
      ensures o.Done? ==> table[..freePos] == old(table[..freePos]) + [Association(to, ModuleOf(old(table[..freePos]), from))]
    {
      var mod := GetModuleId(from);
      var ok := Append(to, mod);
      o := if ok then Done else Panics;
    }

    /** The module of the first association of a thread, or 0. */
    method GetModuleId(thread: Word) returns (mod: Word)
      requires Valid()
      ensures mod == ModuleOf(table[..freePos], thread)
    {
      var i := 0;
      while i < freePos
        invariant 0 <= i <= freePos
        invariant ModuleOf(table[..freePos], thread) == ModuleOf(table[i..freePos], thread)
      {
        if table[i].thread == thread {
          return table[i].mod;
        }
        assert table[i..freePos][1..] == table[i + 1..freePos];
        i := i + 1;
      }
      return 0;
    }
  }

  /** A record lies inside the structure, and its first words tell its kind and, for a module, where the module begins. */
  lemma RecordInside(s: seq<Byte>, rec: nat, e: Entry)
    requires EntryAt(s, rec, e) && ValidEntry(e)
    ensures rec + 16 <= |s| && (WordAt(s, rec) == MODULE <==> e.Module?) && (e.Module? ==> WordAt(s, rec + 12) == e.start)
  {
    if e.Exec? {
      assert WordAt(s, rec + 4 * 0) == e.words[0];
    }
  }

  /** Every frame mapped so far, in whatever order the faults came, holds the window of the eagerly loaded image, unless
      its page begins behind the data of a segment that goes on. If the thread had an association when it faulted, the image
      is that of the module that its first association names, also after more associations. */
  lemma MappedIsImage(r: RamDsm, f: int, x: Word)
    requires r.Valid() && f in r.mapped && x < PAGE
    requires var w := r.mapped[f].window; Proper(w.phdrs) && forall i :: 0 <= i < |w.phdrs| ==> !BehindData(w.phdrs[i], w.start)
    ensures 0 <= f < FRAMES && r.frames.Length == MEMORY
    ensures var w := r.mapped[f].window;
            w.start + PAGE <= WORD && r.frames[f * PAGE + x] == ImageByte(w.phdrs, |w.phdrs|, w.hdr, r.file, w.start + x)
    ensures r.freePos <= r.table.Length
    ensures var mod := ModuleOf(r.table[..r.freePos], r.mapped[f].thread);
            r.mapped[f].named ==> IsPageOf(r.entries, mod, r.file, r.mapped[f].window)
  {
    assert Intact(r.frames[..], f * PAGE, r.mapped[f].window, r.file);
    WindowIsImage(r.frames[..], f * PAGE, r.mapped[f].window, r.file, x);
    assert r.frames[..][f * PAGE + x] == r.frames[f * PAGE + x];
    assert FromModule(r.entries, r.table[..r.freePos], r.file, r.mapped[f]);
  }

  /** If the module is an executable with these headers, the frame holds the page of this program. */
  lemma MappedIsProgram(r: RamDsm, f: int, mod: Word, h: Header, gs: seq<Segment>)
    requires r.Valid() && f in r.mapped && r.mapped[f].named && mod == ModuleOf(r.table[..r.freePos], r.mapped[f].thread)
    requires mod < |r.entries| && r.entries[mod].Module? ==> IsExecutable(r.file, r.entries[mod].start, h, gs)
    requires ProperSegments(gs) && BeginsWell(gs, r.mapped[f].window.start)
    ensures mod < |r.entries| && r.entries[mod].Module?
    ensures ProgramPage(r.file, r.entries[mod].start, gs, r.mapped[f].window.start, r.frames[..], f * PAGE)
  {
    assert FromModule(r.entries, r.table[..r.freePos], r.file, r.mapped[f]);
    assert Intact(r.frames[..], f * PAGE, r.mapped[f].window, r.file);
    WindowIsProgram(r.file, h, gs, r.mapped[f].window, r.frames[..], f * PAGE);
  }
}
