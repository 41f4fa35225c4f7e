/** The application pager's requests: page faults, and threads that come and go. Records are numbered in the order in
    which they are made; a pointer is such a number, or NIL. */
module AppPager {
  import opened Words
  import opened Sequences
  import opened Chains
  import opened Frames

  /** How a request ends. `Crashes` is the use of a null pointer. */
  datatype Outcome = Done | Panics | Crashes

  /** The first thread on the list with the given id. */
  ghost predicate FirstWith(threads: seq<Thread>, all: seq<int>, id: Word, t: int) {
    if t == NIL then
      forall i {:trigger all[i]} :: 0 <= i < |all| && 0 <= all[i] < |threads| ==> threads[all[i]].id != id
    else
      exists i :: 0 <= i < |all| && all[i] == t && 0 <= t < |threads| && threads[t].id == id
        && forall j {:trigger all[j]} :: 0 <= j < i && 0 <= all[j] < |threads| ==> threads[all[j]].id != id
  }

  class AppPager {
    var pages: seq<Page>
    var spaces: seq<Space>
    var threads: seq<Thread>
    var freePage: int
    var nextStart: Word
    var freeSpace: int
    var firstThread: int
    ghost var w: World

    ghost function Fields(): Memory
      reads this
    {
      Memory(pages, spaces, threads, freePage, nextStart, freeSpace, firstThread)
    }

    ghost predicate Valid()
      reads this
    {
      Fields() == w.m && Sound(w)
    }

    constructor ()
      ensures Valid() && Homed(w) && pages == [] && spaces == [] && threads == [] && freeSpace == NIL
      ensures w.g.members == [] && w.g.pages == [[]] && w.g.all == [] && nextStart == 0x4000_0000
    {
      pages, spaces, threads := [], [], [];
      freePage, nextStart, freeSpace, firstThread := NIL, FIRST_FRAME, NIL, NIL;
      w := World(Memory([], [], [], NIL, FIRST_FRAME, NIL, NIL), Lists([NIL], [], [[]], [], [], [], [], [], []));
    }

    // ----- frames -----

    /** A frame, from the free list or a new one; none when the range for frames is used up. */
    method AllocPage() returns (p: int)
      requires Valid() && Homed(w)
      modifies this`pages, this`freePage, this`nextStart, this`w
      ensures Valid()
      ensures p == NIL <==> old(w).g.pages[0] == [] && |old(pages)| == (END_OF_FRAMES - FIRST_FRAME) / FRAME
      ensures p == NIL ==> w == old(w)
      ensures p != NIL ==>
                && 0 <= p < |pages| && w.g.pageOn[p] == NIL
                && (forall q {:trigger w.g.pageOn[q]} :: 0 <= q < |pages| && q != p ==> w.g.pageOn[q] >= 0)
                && if old(w).g.pages[0] != [] then p == old(w).g.pages[0][0] && w == FrameTaken(old(w))
                   else p == |old(pages)| && w == FrameMade(old(w))
    {
      FreeFrame(w);
      p := freePage;
      if p == NIL {
        if nextStart >= END_OF_FRAMES {
          return;
        }
        FrameMadeKeeps(w);
        p := |pages|;
        pages := pages + [Page(nextStart, NIL)];
        w := FrameMade(w);
        nextStart := nextStart + FRAME;
      } else {
        FrameTakenKeeps(w);
        w := FrameTaken(w);
        freePage := pages[p].next;
        pages := pages[p := pages[p].(next := NIL)];
      }
    }

    method AddPage(s: int, p: int)
      requires Valid() && 0 <= s < |spaces| && w.g.members[s] != [] && 0 <= p < |pages| && w.g.pageOn[p] == NIL
      modifies this`pages, this`spaces, this`w
      ensures Valid() && w == FrameGiven(old(w), s, p)
    {
      FrameGivenKeeps(w, s, p);
      w := FrameGiven(w, s, p);
      pages := pages[p := pages[p].(next := spaces[s].firstPage)];
      spaces := spaces[s := spaces[s].(firstPage := p)];
    }

    /** Puts the whole list that starts with `p` in front of the free list. */
    method FreePages(p: int, ghost items: seq<int>)
      requires p != NIL && Chain(PageNext(pages), p, items)
      modifies this`pages, this`freePage
      ensures |items| > 0 && 0 <= items[|items| - 1] < |pages|
      ensures freePage == p
      ensures pages == old(pages)[items[|items| - 1] := old(pages)[items[|items| - 1]].(next := old(freePage))]
    {
      var q := p;
      ghost var k: nat := 0;
      assert PageNext(pages)[items[0]] == pages[q].next;
      while pages[q].next != NIL
        invariant k < |items| && q == items[k] && 0 <= q < |pages| && pages[q].next == PageNext(pages)[items[k]]
        decreases |items| - k
      {
        q := pages[q].next;
        k := k + 1;
        assert PageNext(pages)[items[k]] == pages[q].next;
      }
      pages := pages[q := pages[q].(next := freePage)];
      freePage := p;
    }

    // ----- threads -----

    method Find(id: Word) returns (t: int)
      requires Valid()
      ensures FirstWith(threads, w.g.all, id, t)
      ensures t != NIL ==> 0 <= t < |threads| && w.g.threadIn[t] >= 0
    {
      t := firstThread;
      ghost var k: nat := 0;
      assert Chain(GlobalNext(threads), [w.m.firstThread][0], [w.g.all][0]);
      while t != NIL
        invariant k <= |w.g.all| && t == if k < |w.g.all| then w.g.all[k] else NIL
        invariant forall i {:trigger w.g.all[i]} :: 0 <= i < k ==> threads[w.g.all[i]].id != id
        decreases |w.g.all| - k
      {
        assert w.g.threadOn[[w.g.all][0][k]] == 0;
        if threads[t].id == id {
          return;
        }
        assert GlobalNext(threads)[w.g.all[k]] == threads[t].globalNext;
        t := threads[t].globalNext;
        k := k + 1;
      }
    }

    // ----- requests -----

    /** A page fault takes a frame for the space of the faulting thread. */
    method Fault(caller: Word) returns (o: Outcome, frame: Word, t: int)
      requires Valid() && Homed(w)
      modifies this`pages, this`spaces, this`freePage, this`nextStart, this`w
      ensures Valid() && Homed(w)
      ensures FirstWith(threads, old(w).g.all, caller, t)
      ensures o.Crashes? <==> t == NIL
      ensures o.Panics? <==> t != NIL && old(w).g.pages[0] == [] && |old(pages)| == (END_OF_FRAMES - FIRST_FRAME) / FRAME
      ensures !o.Done? ==> w == old(w)
      ensures o.Done? ==>
                var s := threads[t].space;
                && 0 <= s < |spaces| && FrameGranted(old(w), s, spaces[s].firstPage, w)
                && 0 <= spaces[s].firstPage < |pages| && frame == pages[spaces[s].firstPage].base
    {
      frame := 0;
      t := Find(caller);
      if t == NIL {
        return Crashes, frame, t;
      }
      var s := threads[t].space;
      ghost var k, j := Places(w, t);
      var p := Supply(s);
      if p == NIL {
        return Panics, frame, t;
      }
      frame := pages[p].base;
      o := Done;
    }

    /** Takes a frame and gives it to a space. */
    method Supply(s: int) returns (p: int)
      requires Valid() && Homed(w) && 0 <= s < |spaces| && w.g.members[s] != []
      modifies this`pages, this`spaces, this`freePage, this`nextStart, this`w
      ensures Valid() && Homed(w)
      ensures p == NIL <==> old(w).g.pages[0] == [] && |old(pages)| == (END_OF_FRAMES - FIRST_FRAME) / FRAME
      ensures p == NIL ==> w == old(w)
      ensures p != NIL ==> 0 <= p < |pages| && s < |spaces| && spaces[s].firstPage == p && FrameGranted(old(w), s, p, w)
    {
      FreeFrame(w);
      p := AllocPage();
      if p != NIL {
        AddPage(s, p);
      }
    }

    /** A new thread in a space of its own. */
    method AssociateImage(id: Word)
      requires Valid() && Homed(w)
      modifies this`threads, this`spaces, this`firstThread, this`freeSpace, this`w
      ensures Valid() && Homed(w) && w == ThreadStarted(old(w), id)
      ensures var t, s := |old(threads)|, if old(freeSpace) == NIL then |old(spaces)| else old(freeSpace);
              && threads == old(threads) + [Thread(id, s, NIL, old(firstThread))] && firstThread == t
              && 0 <= s < |spaces| && spaces[s] == Space(NIL, NIL, t)
              && spaces == (if old(freeSpace) == NIL then old(spaces) + [spaces[s]] else old(spaces)[s := spaces[s]])
              && freeSpace == if old(freeSpace) == NIL then NIL else old(spaces)[s].nextFree
    {
      FreeSpaceHead(w);
      ThreadStartedKeeps(w, id);
      var t := |threads|;
      threads := threads + [Thread(id, NIL, NIL, firstThread)];
      firstThread := t;
      var s := freeSpace;
      if s == NIL {
        s := |spaces|;
        spaces := spaces + [Space(NIL, NIL, NIL)];
      } else {
        freeSpace := spaces[s].nextFree;
        spaces := spaces[s := spaces[s].(nextFree := NIL)];
      }
      spaces := spaces[s := spaces[s].(firstThread := t)];
      spaces := spaces[s := spaces[s].(firstPage := NIL)];
      threads := threads[t := threads[t].(space := s)];
      w := ThreadStarted(w, id);
    }

    /** A new thread in the space of another. */
    method CopyAssociation(from: Word, to: Word) returns (o: Outcome, t: int)
      requires Valid() && Homed(w)
      modifies this`threads, this`spaces, this`firstThread, this`w
      ensures Valid() && Homed(w)
      ensures FirstWith(old(threads), old(w).g.all, from, t)
      ensures o == if t == NIL then Crashes else Done
      ensures o.Done? ==>
                && 0 <= old(threads)[t].space < |old(w).m.spaces| == |old(w).g.members|
                && w == ThreadJoined(old(w), to, old(threads)[t].space)
      ensures o.Done? ==>
                var n, s := |old(threads)|, old(threads)[t].space;
                && threads == old(threads) + [Thread(to, s, old(spaces)[s].firstThread, old(firstThread))] && firstThread == n
                && spaces == old(spaces)[s := old(spaces)[s].(firstThread := n)]
      ensures o.Crashes? ==> w == old(w)
    {
      t := Find(from);
      if t == NIL {
        return Crashes, t;
      }
      var s := threads[t].space;
      ghost var k, j := Places(w, t);
      ThreadJoinedKeeps(w, to, s);
      w := ThreadJoined(w, to, s);
      var n := |threads|;
      threads := threads + [Thread(to, s, spaces[s].firstThread, firstThread)];
      firstThread := n;
      spaces := spaces[s := spaces[s].(firstThread := n)];
      o := Done;
    }

    /** A thread goes. With the last thread of a space, the space and all its frames are free again; a space that never
        had a page is given back through a null pointer. */
    method DeleteAssociation(id: Word) returns (o: Outcome, t: int, ghost k: nat, ghost j: nat)
      requires Valid() && Homed(w)
      modifies this
      ensures FirstWith(old(threads), old(w).g.all, id, t)
      ensures o.Crashes? <==>
                t != NIL && 0 <= old(threads)[t].space < |old(w).g.members| == |old(w).g.pages| - 1
                && old(w).g.members[old(threads)[t].space] == [t] && old(w).g.pages[old(threads)[t].space + 1] == []
      ensures o.Done? ==> Valid() && Homed(w)
      ensures o.Done? && t == NIL ==> w == old(w)
      ensures o.Done? && t != NIL ==> Removed(old(w), t, k, j, w)
      ensures !o.Panics?
    {
      k, j := 0, 0;
      t := Find(id);
      if t == NIL {
        return Done, t, k, j;
      }
      var freed;
      freed, k, j := Delete(t);
      o := if freed then Done else Crashes;
    }

    /** Takes a live thread off its lists; the result tells whether all went well. */
    method Delete(t: int) returns (ok: bool, ghost k: nat, ghost j: nat)
      requires Valid() && Homed(w) && 0 <= t < |threads| && w.g.threadIn[t] >= 0
      modifies this
      ensures 0 <= old(threads)[t].space < |old(w).g.members| == |old(w).g.pages| - 1
      ensures !ok <==> old(w).g.members[old(threads)[t].space] == [t] && old(w).g.pages[old(threads)[t].space + 1] == []
      ensures ok ==> Valid() && Homed(w) && Removed(old(w), t, k, j, w)
    {
      var s := threads[t].space;
      k, j := Depart(t);
      ghost var gone := w;
      ok := FreeUnused(s);
      DeletedIs(old(w), t, k, j, gone, w, ok);
    }

    /** A live thread goes; its space may be left without threads. */
    method Depart(t: int) returns (ghost k: nat, ghost j: nat)
      requires Valid() && 0 <= t < |threads| && w.g.threadIn[t] >= 0
      modifies this`threads, this`firstThread, this`spaces, this`w
      ensures Fields() == w.m && AtPlaces(old(w), t, k, j) && w == ThreadGone(old(w), t, k, j)
      ensures var s := old(threads)[t].space;
              && s < |w.g.members| == |w.g.pages| - 1 == |spaces|
              && (w.g.members[s] == [] <==> old(w).g.members[s] == [t])
              && if w.g.members[s] == [] then SoundBut(w, s) else Sound(w)
    {
      k, j := Places(w, t);
      Leave(t, k, j);
      ThreadGoneKeeps(old(w), t, k, j);
    }

    /** Takes a live thread off its lists. */
    method Leave(t: int, ghost k: nat, ghost j: nat)
      requires Fields() == w.m && t >= 0 && AtPlaces(w, t, k, j)
      requires Chain(ThreadNext(w.m.threads), w.m.spaces[w.m.threads[t].space].firstThread, w.g.members[w.m.threads[t].space])
      requires Chain(GlobalNext(w.m.threads), w.m.firstThread, w.g.all)
      modifies this`threads, this`firstThread, this`spaces, this`w
      ensures Fields() == w.m && w == ThreadGone(old(w), t, k, j)
    {
      var s := threads[t].space;
      Unlist(t, w.g.all, j);
      ghost var threads1 := threads;
      Unjoin(t, s, w.g.members[s], k);
      GoneFields(w, t, k, j, threads1, Fields());
      w := ThreadGone(w, t, k, j);
    }

    /** Gives a space back if it has no threads; the result tells whether all went well. */
    method FreeUnused(s: int) returns (ok: bool)
      requires Fields() == w.m && 0 <= s < |spaces| == |w.g.members| == |w.g.pages| - 1
      requires if w.g.members[s] == [] then SoundBut(w, s) else Sound(w)
      modifies this`pages, this`freePage, this`spaces, this`freeSpace, this`w
      ensures !ok <==> old(w).g.members[s] == [] && old(w).g.pages[s + 1] == []
      ensures ok ==> Valid()
      ensures ok && old(w).g.members[s] != [] ==> w == old(w)
      ensures ok && old(w).g.members[s] == [] ==>
                && |old(w).g.pages[s + 1]| > 0
                && 0 <= old(w).g.pages[s + 1][|old(w).g.pages[s + 1]| - 1] < |old(pages)|
                && w == SpaceFreed(old(w), s)
    {
      HeadsTell(w, s);
      if spaces[s].firstThread == NIL {
        if spaces[s].firstPage == NIL {
          return false;
        }
        FreeSpace(s);
      }
      ok := true;
    }

    /** Takes a thread off the global list. */
    method Unlist(t: int, ghost all: seq<int>, ghost j: nat)
      requires 0 <= t < |threads| && j < |all| && all[j] == t && Chain(GlobalNext(threads), firstThread, all)
      modifies this`threads, this`firstThread
      ensures j > 0 ==> 0 <= all[j - 1] < |old(threads)|
      ensures threads == Unlisted(old(threads), all, j, t)
      ensures firstThread == if j == 0 then old(threads)[t].globalNext else old(firstThread)
    {
      var p := firstThread;
      if p == NIL {
        return;
      } else if p == t {
        firstThread := threads[t].globalNext;
      } else {
        ghost var i: nat := 0;
        assert GlobalNext(threads)[all[0]] == threads[p].globalNext;
        while threads[p].globalNext != NIL
          invariant i < j && p == all[i] && threads[p].globalNext == all[i + 1]
          decreases j - i
        {
          if threads[p].globalNext == t {
            threads := threads[p := threads[p].(globalNext := threads[t].globalNext)];
            return;
          }
          p := threads[p].globalNext;
          i := i + 1;
          assert GlobalNext(threads)[all[i]] == threads[p].globalNext;
        }
      }
    }

    /** Takes a thread off the list of its space. When it is the first, the search goes on behind it and finds nothing. */
    method Unjoin(t: int, s: int, ghost items: seq<int>, ghost k: nat)
      requires 0 <= t < |threads| && 0 <= s < |spaces| && k < |items| && items[k] == t
      requires Chain(ThreadNext(threads), spaces[s].firstThread, items)
      modifies this`threads, this`spaces
      ensures k > 0 ==> 0 <= items[k - 1] < |old(threads)|
      ensures threads == Unjoined(old(threads), items, k, t)
      ensures spaces == if k == 0 then old(spaces)[s := old(spaces)[s].(firstThread := old(threads)[t].next)] else old(spaces)
    {
      var p := spaces[s].firstThread;
      if p == NIL {
        return;
      } else if p == t {
        spaces := spaces[s := spaces[s].(firstThread := threads[t].next)];
      }
      ghost var i: nat := 0;
      assert ThreadNext(threads)[items[0]] == threads[p].next;
      while threads[p].next != NIL
        invariant i < |items| && p == items[i] && (k > 0 ==> i < k) && 0 <= p < |threads|
        invariant threads[p].next == if i + 1 < |items| then items[i + 1] else NIL
        invariant threads == old(threads)
        decreases |items| - i
      {
        if threads[p].next == t {
          threads := threads[p := threads[p].(next := threads[t].next)];
          return;
        }
        p := threads[p].next;
        i := i + 1;
        assert ThreadNext(threads)[items[i]] == threads[p].next;
      }
    }

    /** Gives a space and its frames back. */
    method FreeSpace(s: int)
      requires Fields() == w.m && 0 <= s < |spaces| && SoundBut(w, s) && spaces[s].firstPage != NIL
      modifies this`pages, this`freePage, this`spaces, this`freeSpace, this`w
      ensures |old(w).g.pages| > s + 1 && |old(w).g.pages[s + 1]| > 0
      ensures 0 <= old(w).g.pages[s + 1][|old(w).g.pages[s + 1]| - 1] < |old(pages)|
      ensures Valid() && w == SpaceFreed(old(w), s)
    {
      HeadsTell(w, s);
      SpaceFreedKeeps(w, s);
      FreePages(spaces[s].firstPage, w.g.pages[s + 1]);
      spaces := spaces[s := spaces[s].(nextFree := freeSpace)];
      freeSpace := s;
      w := SpaceFreed(w, s);
    }
  }

  /** The first task of all. */
  lemma FirstTask(w: World, id: Word)
    requires Sound(w) && w.m.threads == [] && w.m.spaces == [] && w.m.freeSpace == NIL
    requires w.g.members == [] && w.g.pages == [[]] && w.g.all == []
    ensures var v := ThreadStarted(w, id);
            && v.g.members == [[0]] && v.g.pages == [[], []] && v.g.all == [0]
            && |v.m.threads| == 1 && v.m.threads[0].id == id && v.m.threads[0].space == 0
            && |v.m.spaces| == 1 && v.m.freeSpace == NIL && v.m.pages == w.m.pages
  {
    var v := ThreadStarted(w, id);
    assert v.g.members[0] == With([], 0, 0) == [0];
    assert v.g.all == With([], 0, 0) == [0];
  }

  /** A task that goes before its first page fault: its space has no page, and giving it back uses a null pointer. */
  method CrashAtOnce() returns (o: Outcome)
    ensures o.Crashes?
  {
    var pager := new AppPager();
    FirstTask(pager.w, 7);
    pager.AssociateImage(7);
    assert pager.w.g.all[0] == 0;
    var t;
    ghost var k, j;
    o, t, k, j := pager.DeleteAssociation(7);
  }
}
