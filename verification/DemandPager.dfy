/** The application pager with the memory of its frames and the slot that executables are mapped to: what a frame holds as
    long as a space has it. */
module DemandPager {
  import opened Words
  import opened Sequences
  import opened Elf
  import opened Executables
  import opened Chains
  import opened Frames
  import A = AppPager

  /** Where executables are mapped: the address of the next slot is never advanced, so that all spaces use this one. */
  const FILE_SLOT: Word := 0x8000_0000

  /** What a frame was filled with: a page of what was mapped then. */
  datatype Content = Content(window: Window, file: Word -> Byte)

  /** Where frame `p` is in the memory of the frames. */
  function Base(p: int): int {
    p * FRAME
  }

  /** Every frame on the list of a space holds the page that it was filled with. */
  ghost predicate Filled(w: World, frames: seq<Byte>, contents: map<int, Content>) {
    forall p {:trigger w.g.pageOn[p]} :: 0 <= p < |w.g.pageOn| && w.g.pageOn[p] >= 1 ==>
      && p in contents && Intact(frames, Base(p), contents[p].window, contents[p].file)
      && contents[p].window == Window(HeadersIn(contents[p].file, FILE_SLOT), FILE_SLOT, contents[p].window.start)
  }

  /** Frame `p` was free or new, and is given to a space. */
  ghost predicate GivesFrame(w: World, v: World, p: int) {
    && |w.g.pageOn| <= |v.g.pageOn| && 0 <= p < |v.g.pageOn| && (p < |w.g.pageOn| ==> w.g.pageOn[p] < 1)
    && forall q {:trigger v.g.pageOn[q]} :: 0 <= q < |v.g.pageOn| && q != p ==> q < |w.g.pageOn| && v.g.pageOn[q] == w.g.pageOn[q]
  }

  lemma FilledFrame(w: World, v: World, p: int, was: seq<Byte>, now: seq<Byte>, contents: map<int, Content>, c: Content)
    requires Filled(w, was, contents) && GivesFrame(w, v, p) && OnlyFrame(was, now, Base(p)) && Intact(now, Base(p), c.window, c.file)
    requires c.window == Window(HeadersIn(c.file, FILE_SLOT), FILE_SLOT, c.window.start)
    ensures Filled(v, now, contents[p := c])
  {
    forall q | 0 <= q < |v.g.pageOn| && v.g.pageOn[q] >= 1 && q != p
      ensures q in contents && Intact(now, Base(q), contents[q].window, contents[q].file)
      ensures contents[q].window == Window(HeadersIn(contents[q].file, FILE_SLOT), FILE_SLOT, contents[q].window.start)
    {
      assert w.g.pageOn[q] >= 1;
      StaysIntact(was, now, Base(q), Base(p), contents[q].window, contents[q].file);
    }
  }

  /** A frame that a space gets was free or new, and is where its number says. */
  lemma GrantGivesFrame(w: World, v: World, s: nat, p: int)
    requires FrameGranted(w, s, p, v) && Sound(v)
    ensures GivesFrame(w, v, p) && p < |v.m.pages| && v.m.pages[p].base == FIRST_FRAME + Base(p) && v.g.pageOn[p] == s + 1
    ensures Base(p) + PAGE <= END_OF_FRAMES - FIRST_FRAME
  {
    FreeFrame(w);
  }

  class DemandPager {
    const book: A.AppPager
    const memory: array<Byte>
    /** What is read in the file slot. */
    var file: Word -> Byte
    ghost var contents: map<int, Content>

    ghost predicate Valid()
      reads this, book, memory
    {
      && book.Valid() && Homed(book.w) && memory.Length == END_OF_FRAMES - FIRST_FRAME
      && Filled(book.w, memory[..], contents)
    }

    constructor ()
      ensures Valid() && fresh(book) && fresh(memory) && memory.Length == 0x4000_0000
      ensures book.pages == [] && book.spaces == [] && book.threads == [] && book.freeSpace == NIL
      ensures book.w.g.members == [] && book.w.g.pages == [[]] && book.w.g.all == []
    {
      file, contents := _ => 0, map[];
      book := new A.AppPager();
      memory := new Byte[END_OF_FRAMES - FIRST_FRAME];
    }

    /** The bookkeeping of a page fault: the faulting thread's space gets a frame. */
    method Grant(caller: Word) returns (o: A.Outcome, frame: Word, t: int, ghost p: int)
      requires book.Valid() && Homed(book.w)
      modifies book
      ensures book.Valid() && Homed(book.w)
      ensures A.FirstWith(old(book.threads), old(book.w).g.all, caller, t) && (o.Crashes? <==> t == NIL)
      ensures book.threads == old(book.threads)
      ensures o.Panics? <==> t != NIL && old(book.w).g.pages[0] == [] && |old(book.pages)| == (END_OF_FRAMES - FIRST_FRAME) / FRAME
      ensures !o.Done? ==> book.w == old(book.w)
      ensures o.Done? ==>
                && GivesFrame(old(book.w), book.w, p) && frame == FIRST_FRAME + Base(p) && Base(p) + PAGE <= END_OF_FRAMES - FIRST_FRAME
                && 0 <= t < |book.threads| && book.w.g.pageOn[p] == book.threads[t].space + 1
    {
      o, frame, t := book.Fault(caller);
      p := NIL;
      if o.Done? {
        p := book.spaces[book.threads[t].space].firstPage;
        GrantGivesFrame(old(book.w), book.w, book.threads[t].space, p);
      }
    }

    /** A page fault: the frame is filled with the page of what is in the file slot; the frames that spaces have already stay
        as they are. */
    method Fault(caller: Word, address: Word) returns (o: A.Outcome, frame: Word, t: int, ghost p: int)
      requires Valid()
      modifies this`contents, memory, book
      ensures Valid()
      ensures A.FirstWith(old(book.threads), old(book.w).g.all, caller, t) && (o.Crashes? <==> t == NIL)
      ensures book.threads == old(book.threads)
      ensures o.Panics? <==> t != NIL && old(book.w).g.pages[0] == [] && |old(book.pages)| == (END_OF_FRAMES - FIRST_FRAME) / FRAME
      ensures !o.Done? ==> contents == old(contents) && book.w == old(book.w) && memory[..] == old(memory[..])
      ensures o.Done? ==>
                && GivesFrame(old(book.w), book.w, p) && frame == FIRST_FRAME + Base(p)
                && 0 <= t < |book.threads| && book.w.g.pageOn[p] == book.threads[t].space + 1
                && contents == old(contents)[p := Content(PageOf(file, 0x8000_0000, address), file)]
    {
      o, frame, t, p := Grant(caller);
      if o.Done? {
        Fill(frame - FIRST_FRAME, address, p, old(book.w));
      }
    }

    /** Fills the frame that was granted. */
    method Fill(base: nat, address: Word, ghost p: int, ghost was: World)
      requires base == Base(p) && base + PAGE <= memory.Length
      requires Filled(was, memory[..], contents) && GivesFrame(was, book.w, p)
      modifies this`contents, memory
      ensures Filled(book.w, memory[..], contents)
      ensures contents == old(contents)[p := Content(PageOf(file, FILE_SLOT, address), file)]
    {
      LoadPage(memory, base, FILE_SLOT, file, address);
      ghost var c := Content(PageOf(file, FILE_SLOT, address), file);
      FilledFrame(was, book.w, p, old(memory[..]), memory[..], contents, c);
      contents := contents[p := c];
    }

    /** A new task: its program is mapped to the file slot, in the place of what was there. */
    method AssociateImage(id: Word, program: Word -> Byte)
      requires Valid()
      modifies this`file, book
      ensures Valid() && file == program && book.w == ThreadStarted(old(book.w), id)
    {
      book.AssociateImage(id);
      file := program;
    }

    method CopyAssociation(from: Word, to: Word) returns (o: A.Outcome, t: int)
      requires Valid()
      modifies book
      ensures Valid()
    {
      o, t := book.CopyAssociation(from, to);
    }

    /** With the last thread of a space its frames are free again, and may be filled with other pages. */
    method DeleteAssociation(id: Word) returns (o: A.Outcome, t: int, ghost k: nat, ghost j: nat)
      requires Valid()
      modifies book
      ensures o.Done? ==> Valid()
      ensures o.Done? && t != NIL ==> 0 <= t && Removed(old(book.w), t, k, j, book.w)
    {
      o, t, k, j := book.DeleteAssociation(id);
      if o.Done? && t != NIL {
        forall p | 0 <= p < |book.w.g.pageOn| && book.w.g.pageOn[p] >= 1
          ensures |book.w.g.pageOn| == |old(book.w).g.pageOn| && old(book.w).g.pageOn[p] >= 1
        {
          RemovedGivesNoFrame(old(book.w), t, k, j, book.w, p);
        }
      }
    }
  }

  /** A frame on the list of a space was filled, and holds what it was filled with. */
  lemma FrameHolds(pager: DemandPager, s: nat, p: int)
    requires pager.Valid() && s < |pager.book.w.m.spaces| && s + 1 < |pager.book.w.g.pages| && p in pager.book.w.g.pages[s + 1]
    ensures p in pager.contents && Intact(pager.memory[..], Base(p), pager.contents[p].window, pager.contents[p].file)
    ensures pager.contents[p].window == Window(HeadersIn(pager.contents[p].file, FILE_SLOT), FILE_SLOT, pager.contents[p].window.start)
  {
    var g := pager.book.w.g;
    var k := Place(g.pages[s + 1], p);
    assert g.pageOn[g.pages[s + 1][k]] == s + 1;
  }

  /** Whatever requests came before, a frame on the list of a space holds its page of the eagerly loaded image, unless the page
      begins behind the data of a segment that goes on. */
  lemma FrameIsImage(pager: DemandPager, s: nat, p: int)
    requires pager.Valid() && s < |pager.book.w.m.spaces| && s + 1 < |pager.book.w.g.pages| && p in pager.book.w.g.pages[s + 1]
    requires p in pager.contents ==>
               var w := pager.contents[p].window;
               Proper(w.phdrs) && forall i {:trigger w.phdrs[i]} :: 0 <= i < |w.phdrs| ==> !BehindData(w.phdrs[i], w.start)
    ensures p in pager.contents && ImagePage(pager.memory[..], Base(p), pager.contents[p].window, pager.contents[p].file)
  {
    FrameHolds(pager, s, p);
    WindowIsImagePage(pager.memory[..], Base(p), pager.contents[p].window, pager.contents[p].file);
  }

  /** If an executable with these headers was in the file slot when the frame was filled, the frame holds the page of that
      program. */
  lemma FrameIsProgram(pager: DemandPager, s: nat, p: int, h: Header, gs: seq<Segment>)
    requires pager.Valid() && s < |pager.book.w.m.spaces| && s + 1 < |pager.book.w.g.pages| && p in pager.book.w.g.pages[s + 1]
    requires p in pager.contents ==>
               && IsExecutable(pager.contents[p].file, FILE_SLOT, h, gs)
               && ProperSegments(gs) && BeginsWell(gs, pager.contents[p].window.start)
    ensures p in pager.contents
    ensures ProgramPage(pager.contents[p].file, FILE_SLOT, gs, pager.contents[p].window.start, pager.memory[..], Base(p))
  {
    FrameHolds(pager, s, p);
    WindowIsProgram(pager.contents[p].file, h, gs, pager.contents[p].window, pager.memory[..], Base(p));
  }

  /** The second task of all, after one that has no pages yet. */
  lemma SecondTask(w: World, id: Word)
    requires Sound(w) && |w.m.threads| == 1 && |w.m.spaces| == 1 && w.m.freeSpace == NIL && w.g.all == [0] && w.g.pages == [[], []]
    ensures var v := ThreadStarted(w, id);
            && v.g.all == [1, 0] && v.g.pages[..1] == [[]] && |v.m.threads| == 2
            && v.m.threads[1].id == id && v.m.threads[0].id == w.m.threads[0].id && v.m.pages == w.m.pages
  {
    assert ThreadStarted(w, id).g.all == With([0], 0, 1) == [1, 0];
  }

  method TwoTasks(first: Word -> Byte, second: Word -> Byte) returns (pager: DemandPager)
    ensures pager.Valid() && fresh(pager) && fresh(pager.book) && fresh(pager.memory) && pager.file == second
    ensures pager.book.w.g.all == [1, 0] && |pager.book.threads| == 2 && pager.book.threads[1].id == 8 && pager.book.threads[0].id == 7
    ensures pager.book.pages == []
  {
    pager := new DemandPager();
    A.FirstTask(pager.book.w, 7);
    pager.AssociateImage(7, first);
    SecondTask(pager.book.w, 8);
    pager.AssociateImage(8, second);
  }

  /** Two tasks, and then the first one faults: its page comes from the program of the second. */
  method SharedSlot(first: Word -> Byte, second: Word -> Byte, address: Word)
    returns (pager: DemandPager, o: A.Outcome, t: int, ghost p: int)
    ensures pager.Valid() && o.Done? && 0 <= t < |pager.book.threads| && pager.book.threads[t].id == 7
    ensures p in pager.contents && pager.contents[p] == Content(PageOf(second, FILE_SLOT, address), second)
  {
    pager := TwoTasks(first, second);
    assert pager.book.w.g.all[1] == 0;
    var frame;
    o, frame, t, p := pager.Fault(7, address);
  }
}
