/** The application pager's page frames, spaces and threads: the lists they are on, and what every operation keeps. */
module Frames {
  import opened Words
  import opened Sequences
  import opened Chains

  const FIRST_FRAME: Word := 0x4000_0000
  const END_OF_FRAMES: Word := 0x8000_0000
  const FRAME: Word := 0x1000

  datatype Page = Page(base: Word, next: int)

  datatype Space = Space(nextFree: int, firstPage: int, firstThread: int)

  datatype Thread = Thread(id: Word, space: int, next: int, globalNext: int)

  /** All records ever made, by number, and the heads of the global lists. */
  datatype Memory = Memory(pages: seq<Page>, spaces: seq<Space>, threads: seq<Thread>,
                           freePage: int, nextStart: Word, freeSpace: int, firstThread: int)

  /** Page list 0 is the free list, page list `s + 1` belongs to space `s`. A space on the free list has no pages of its
      own, whatever its first page field says. */
  datatype Lists = Lists(pageHeads: seq<int>, pageOn: seq<int>, pages: seq<seq<int>>,
                         spaceOn: seq<int>, freeSpaces: seq<int>,
                         threadIn: seq<int>, members: seq<seq<int>>,
                         threadOn: seq<int>, all: seq<int>)

  datatype World = World(m: Memory, g: Lists)

  function PageNext(pages: seq<Page>): (r: seq<int>)
    ensures |r| == |pages|
  {
    seq(|pages|, i requires 0 <= i < |pages| => pages[i].next)
  }

  function SpaceNext(spaces: seq<Space>): (r: seq<int>)
    ensures |r| == |spaces|
  {
    seq(|spaces|, i requires 0 <= i < |spaces| => spaces[i].nextFree)
  }

  function ThreadHeads(spaces: seq<Space>): (r: seq<int>)
    ensures |r| == |spaces|
  {
    seq(|spaces|, i requires 0 <= i < |spaces| => spaces[i].firstThread)
  }

  function ThreadNext(threads: seq<Thread>): (r: seq<int>)
    ensures |r| == |threads|
  {
    seq(|threads|, i requires 0 <= i < |threads| => threads[i].next)
  }

  function GlobalNext(threads: seq<Thread>): (r: seq<int>)
    ensures |r| == |threads|
  {
    seq(|threads|, i requires 0 <= i < |threads| => threads[i].globalNext)
  }

  // ----- invariants -----

  /** Frames are numbered in the order of their addresses, without gaps. */
  ghost predicate Numbered(pages: seq<Page>, nextStart: int) {
    && nextStart == FIRST_FRAME + |pages| * FRAME && nextStart <= END_OF_FRAMES
    && forall p {:trigger pages[p]} :: 0 <= p < |pages| ==> pages[p].base == FIRST_FRAME + p * FRAME
  }

  ghost predicate FramesListed(m: Memory, g: Lists) {
    && Partition(PageNext(m.pages), g.pageHeads, g.pageOn, g.pages)
    && |g.pages| == |m.spaces| + 1 == |g.spaceOn| + 1
    && g.pageHeads[0] == m.freePage
    && (forall s {:trigger m.spaces[s]} :: 0 <= s < |m.spaces| ==>
          g.pageHeads[s + 1] == if g.spaceOn[s] == NIL then m.spaces[s].firstPage else NIL)
    && Numbered(m.pages, m.nextStart)
  }

  /** The spaces on the free list are those without threads. */
  ghost predicate SpacesListed(m: Memory, g: Lists) {
    && Partition(SpaceNext(m.spaces), [m.freeSpace], g.spaceOn, [g.freeSpaces])
    && |g.members| == |m.spaces|
    && forall s {:trigger g.spaceOn[s]} :: 0 <= s < |m.spaces| ==> g.spaceOn[s] == if g.members[s] == [] then 0 else NIL
  }

  /** The thread list of a space holds exactly the live threads whose space it is, the global list all live threads. */
  ghost predicate ThreadsListed(m: Memory, g: Lists) {
    && Partition(ThreadNext(m.threads), ThreadHeads(m.spaces), g.threadIn, g.members)
    && Partition(GlobalNext(m.threads), [m.firstThread], g.threadOn, [g.all])
    && forall t {:trigger m.threads[t]} :: 0 <= t < |m.threads| ==>
         && (if g.threadIn[t] >= 0 then m.threads[t].space == g.threadIn[t] else g.threadIn[t] == NIL)
         && g.threadOn[t] == if g.threadIn[t] >= 0 then 0 else NIL
  }

  ghost predicate Sound(w: World) {
    FramesListed(w.m, w.g) && SpacesListed(w.m, w.g) && ThreadsListed(w.m, w.g)
  }

  /** Every frame ever made is on a list. */
  ghost predicate Homed(w: World) {
    forall p {:trigger w.g.pageOn[p]} :: 0 <= p < |w.g.pageOn| ==> w.g.pageOn[p] >= 0
  }

  // ----- what the invariants say -----

  /** Every frame is on exactly one list, at one place, and different frames do not overlap. */
  lemma FramesAreConserved(w: World, p: nat)
    requires Sound(w) && Homed(w) && p < |w.m.pages|
    ensures exists l :: 0 <= l < |w.g.pages| && p in w.g.pages[l] && forall k :: 0 <= k < |w.g.pages| && p in w.g.pages[k] ==> k == l
    ensures forall l :: 0 <= l < |w.g.pages| ==> Distinct(w.g.pages[l])
    ensures FIRST_FRAME <= w.m.pages[p].base && w.m.pages[p].base + FRAME <= END_OF_FRAMES
    ensures forall q :: 0 <= q < |w.m.pages| && q != p ==>
              w.m.pages[p].base + FRAME <= w.m.pages[q].base || w.m.pages[q].base + FRAME <= w.m.pages[p].base
  {
    var l := w.g.pageOn[p];
    assert p in w.g.pages[l];
    forall k | 0 <= k < |w.g.pages| && k != l
      ensures p !in w.g.pages[k]
    {
      NotOn(PageNext(w.m.pages), w.g.pageHeads, w.g.pageOn, w.g.pages, p, k);
    }
  }

  /** A thread is on the list of a space exactly when it is live and the space is its own. */
  lemma SpaceHasItsThreads(w: World, t: nat, s: nat)
    requires Sound(w) && t < |w.m.threads| && s < |w.m.spaces|
    ensures t in w.g.members[s] <==> t in w.g.all && w.m.threads[t].space == s
  {
    if t in w.g.members[s] {
      var k := Place(w.g.members[s], t);
      assert w.g.threadIn[w.g.members[s][k]] == s;
    }
    if t in w.g.all {
      assert [w.g.all][0] == w.g.all;
      var k := Place(w.g.all, t);
      assert w.g.threadOn[[w.g.all][0][k]] == 0;
    }
    var own := w.m.threads[t].space;
    if w.g.threadIn[t] >= 0 {
      assert w.g.threadOn[t] == 0;
      assert t in [w.g.all][w.g.threadOn[t]];
    }
  }

  // ----- frames -----

  /** The first frame of the free list is taken off it. */
  function FrameTaken(w: World): World
    requires 0 <= w.m.freePage < |w.m.pages| && |w.g.pageHeads| == |w.g.pages| > 0 && w.g.pages[0] != [] && |w.g.pageOn| == |w.m.pages|
  {
    var p := w.m.freePage;
    World(w.m.(freePage := w.m.pages[p].next, pages := w.m.pages[p := w.m.pages[p].(next := NIL)]),
          w.g.(pageHeads := w.g.pageHeads[0 := w.m.pages[p].next], pageOn := w.g.pageOn[p := NIL],
               pages := w.g.pages[0 := Without(w.g.pages[0], 0)]))
  }

  /** A frame is made. */
  function FrameMade(w: World): World
    requires w.m.nextStart < END_OF_FRAMES
  {
    World(w.m.(pages := w.m.pages + [Page(w.m.nextStart, NIL)], nextStart := w.m.nextStart + FRAME),
          w.g.(pageOn := w.g.pageOn + [NIL]))
  }

  /** A frame is given to a space. */
  function FrameGiven(w: World, s: nat, p: nat): World
    requires s < |w.m.spaces| && p < |w.m.pages| == |w.g.pageOn| && |w.g.pages| == |w.m.spaces| + 1 == |w.g.pageHeads|
  {
    World(w.m.(pages := w.m.pages[p := w.m.pages[p].(next := w.m.spaces[s].firstPage)],
               spaces := w.m.spaces[s := w.m.spaces[s].(firstPage := p)]),
          w.g.(pageHeads := w.g.pageHeads[s + 1 := p], pageOn := w.g.pageOn[p := s + 1],
               pages := w.g.pages[s + 1 := With(w.g.pages[s + 1], 0, p)]))
  }

  /** A space gets the first free frame, or a new one if none is free. */
  ghost predicate FrameGranted(w: World, s: int, p: int, v: World) {
    && Sound(w) && 0 <= s < |w.m.spaces|
    && if w.g.pages[0] != [] then
         0 <= w.m.freePage < |w.m.pages| && p == w.g.pages[0][0] == w.m.freePage && v == FrameGiven(FrameTaken(w), s, p)
       else p == |w.m.pages| && w.m.nextStart < END_OF_FRAMES && v == FrameGiven(FrameMade(w), s, p)
  }

  /** The frame is in the range for frames, where its number says. */
  lemma GrantedAddress(w: World, s: nat, p: nat, v: World)
    requires FrameGranted(w, s, p, v) && Sound(v)
    ensures p < |v.m.pages| && v.m.pages[p].base == 0x4000_0000 + p * 0x1000 && v.m.pages[p].base + 0x1000 <= 0x8000_0000
    ensures if w.g.pages[0] == [] then p == |w.m.pages| && |v.m.pages| == |w.m.pages| + 1 else p == w.g.pages[0][0] && |v.m.pages| == |w.m.pages|
  {
  }

  /** It is put in front of the space's list; the free list loses its first frame if it has one, and the other lists stay. */
  lemma GrantedLists(w: World, s: nat, p: nat, v: World)
    requires FrameGranted(w, s, p, v)
    ensures |v.g.pages| == |w.g.pages| > s + 1 && v.g.pages[s + 1] == [p] + w.g.pages[s + 1]
    ensures v.g.pages[0] == if w.g.pages[0] == [] then [] else w.g.pages[0][1..]
    ensures forall l {:trigger v.g.pages[l]} :: 1 <= l < |v.g.pages| && l != s + 1 ==> v.g.pages[l] == w.g.pages[l]
  {
    InFront(w.g.pages[s + 1], p);
    if w.g.pages[0] != [] {
      FirstOff(w.g.pages[0]);
      assert FrameTaken(w).g.pages[s + 1] == w.g.pages[s + 1];
    }
  }

  lemma InFront(items: seq<int>, p: int)
    ensures With(items, 0, p) == [p] + items
  {
  }

  lemma FirstOff(items: seq<int>)
    requires items != []
    ensures Without(items, 0) == items[1..]
  {
  }

  /** The thread lists are the same as long as threads and the spaces' lists are. */
  lemma SameThreads(w: World, v: World)
    requires ThreadsListed(w.m, w.g)
    requires v.m.threads == w.m.threads && v.m.firstThread == w.m.firstThread && ThreadHeads(v.m.spaces) == ThreadHeads(w.m.spaces)
    requires v.g.threadIn == w.g.threadIn && v.g.members == w.g.members && v.g.threadOn == w.g.threadOn && v.g.all == w.g.all
    ensures ThreadsListed(v.m, v.g)
  {
    forall t | 0 <= t < |v.m.threads|
      ensures if v.g.threadIn[t] >= 0 then v.m.threads[t].space == v.g.threadIn[t] else v.g.threadIn[t] == NIL
      ensures v.g.threadOn[t] == if v.g.threadIn[t] >= 0 then 0 else NIL
    {
      var r := w.m.threads[t];
    }
  }

  lemma PageUpdated(pages: seq<Page>, p: nat, r: Page)
    requires p < |pages|
    ensures PageNext(pages[p := r]) == PageNext(pages)[p := r.next] && PageNext(pages)[p] == pages[p].next
  {
  }

  /** There is a free frame exactly when the free list's head says so. */
  lemma FreeFrame(w: World)
    requires Sound(w)
    ensures w.m.freePage == NIL <==> w.g.pages[0] == []
    ensures w.m.freePage != NIL ==> 0 <= w.m.freePage < |w.m.pages| && w.g.pages[0][0] == w.m.freePage && w.g.pageOn[w.m.freePage] == 0
  {
  }

  lemma FrameTakenKeeps(w: World)
    requires Sound(w) && 0 <= w.m.freePage < |w.m.pages| && w.g.pages[0] != []
    ensures Sound(FrameTaken(w))
  {
    var p := w.m.freePage;
    FreeFrame(w);
    Unlinked(PageNext(w.m.pages), w.g.pageHeads, w.g.pageOn, w.g.pages, 0, 0, NIL);
    PageUpdated(w.m.pages, p, w.m.pages[p].(next := NIL));
    SameThreads(w, FrameTaken(w));
  }

  lemma FrameMadeKeeps(w: World)
    requires Sound(w) && w.m.nextStart < END_OF_FRAMES
    ensures Sound(FrameMade(w))
  {
    Grown(PageNext(w.m.pages), w.g.pageHeads, w.g.pageOn, w.g.pages, NIL);
    assert PageNext(w.m.pages + [Page(w.m.nextStart, NIL)]) == PageNext(w.m.pages) + [NIL];
    SameThreads(w, FrameMade(w));
  }

  lemma FrameGivenKeeps(w: World, s: nat, p: nat)
    requires Sound(w) && s < |w.m.spaces| && w.g.members[s] != [] && p < |w.m.pages| && w.g.pageOn[p] == NIL
    ensures Sound(FrameGiven(w, s, p))
  {
    var m', g' := FrameGiven(w, s, p).m, FrameGiven(w, s, p).g;
    assert w.g.spaceOn[s] == NIL;
    Pushed(PageNext(w.m.pages), w.g.pageHeads, w.g.pageOn, w.g.pages, s + 1, p);
    PageUpdated(w.m.pages, p, m'.pages[p]);
    assert SpaceNext(m'.spaces) == SpaceNext(w.m.spaces);
    assert ThreadHeads(m'.spaces) == ThreadHeads(w.m.spaces);
    SameThreads(w, FrameGiven(w, s, p));
  }

  // ----- a thread comes -----

  /** A thread is added in front of the list of space `s`, and of the global list. */
  function Added(threads: seq<Thread>, id: Word, s: int, next: int, globalNext: int): (r: seq<Thread>)
    ensures |r| == |threads| + 1
  {
    threads + [Thread(id, s, next, globalNext)]
  }

  lemma AddedNext(threads: seq<Thread>, id: Word, s: int, next: int, globalNext: int)
    ensures ThreadNext(Added(threads, id, s, next, globalNext)) == (ThreadNext(threads) + [NIL])[|threads| := next]
    ensures GlobalNext(Added(threads, id, s, next, globalNext)) == (GlobalNext(threads) + [NIL])[|threads| := globalNext]
  {
  }

  /** The lists of the spaces and the global list, after a thread is added. */
  lemma AddedListed(m: Memory, g: Lists, m': Memory, g': Lists, id: Word, s: nat)
    requires ThreadsListed(m, g) && s < |m.spaces|
    requires m'.threads == Added(m.threads, id, s, m.spaces[s].firstThread, m.firstThread) && m'.firstThread == |m.threads|
    requires ThreadHeads(m'.spaces) == ThreadHeads(m.spaces)[s := |m.threads|]
    requires g'.threadIn == g.threadIn + [s] && g'.members == g.members[s := With(g.members[s], 0, |m.threads|)]
    requires g'.threadOn == g.threadOn + [0] && g'.all == With(g.all, 0, |m.threads|)
    ensures ThreadsListed(m', g')
  {
    var t := |m.threads|;
    var threadIn, threadOn := g.threadIn + [NIL], g.threadOn + [NIL];
    AddedNext(m.threads, id, s, m.spaces[s].firstThread, m.firstThread);
    Grown(ThreadNext(m.threads), ThreadHeads(m.spaces), g.threadIn, g.members, NIL);
    Pushed(ThreadNext(m.threads) + [NIL], ThreadHeads(m.spaces), threadIn, g.members, s, t);
    assert threadIn[t := s] == g'.threadIn;
    Grown(GlobalNext(m.threads), [m.firstThread], g.threadOn, [g.all], NIL);
    Pushed(GlobalNext(m.threads) + [NIL], [m.firstThread], threadOn, [g.all], 0, t);
    assert threadOn[t := 0] == g'.threadOn;
    assert [m.firstThread][0 := t] == [m'.firstThread] && [g.all][0 := With(g.all, 0, t)] == [g'.all];
    forall u | 0 <= u < |m'.threads|
      ensures if g'.threadIn[u] >= 0 then m'.threads[u].space == g'.threadIn[u] else g'.threadIn[u] == NIL
      ensures g'.threadOn[u] == if g'.threadIn[u] >= 0 then 0 else NIL
    {
      if u < t {
        var r := m.threads[u];
      }
    }
  }

  /** A thread joins a space. */
  function ThreadJoined(w: World, id: Word, s: nat): World
    requires s < |w.m.spaces| && s < |w.g.members|
  {
    var t := |w.m.threads|;
    World(w.m.(threads := Added(w.m.threads, id, s, w.m.spaces[s].firstThread, w.m.firstThread), firstThread := t,
               spaces := w.m.spaces[s := w.m.spaces[s].(firstThread := t)]),
          w.g.(threadIn := w.g.threadIn + [s], members := w.g.members[s := With(w.g.members[s], 0, t)],
               threadOn := w.g.threadOn + [0], all := With(w.g.all, 0, t)))
  }

  lemma ThreadJoinedKeeps(w: World, id: Word, s: nat)
    requires Sound(w) && s < |w.m.spaces| && w.g.members[s] != []
    ensures Sound(ThreadJoined(w, id, s))
  {
    var v := ThreadJoined(w, id, s);
    assert w.g.spaceOn[s] == NIL;
    assert SpaceNext(v.m.spaces) == SpaceNext(w.m.spaces);
    assert ThreadHeads(v.m.spaces) == ThreadHeads(w.m.spaces)[s := |w.m.threads|];
    AddedListed(w.m, w.g, v.m, v.g, id, s);
  }

  // ----- a space comes -----

  /** A free space is used again: it is taken off the free list, without pages. */
  function SpaceReused(w: World): World
    requires 0 <= w.m.freeSpace < |w.m.spaces| == |w.g.spaceOn| && w.g.freeSpaces != []
  {
    var s := w.m.freeSpace;
    World(w.m.(freeSpace := w.m.spaces[s].nextFree, spaces := w.m.spaces[s := Space(NIL, NIL, NIL)]),
          w.g.(spaceOn := w.g.spaceOn[s := NIL], freeSpaces := Without(w.g.freeSpaces, 0)))
  }

  function SpaceMade(w: World): World {
    World(w.m.(spaces := w.m.spaces + [Space(NIL, NIL, NIL)]),
          w.g.(spaceOn := w.g.spaceOn + [NIL], members := w.g.members + [[]], pageHeads := w.g.pageHeads + [NIL], pages := w.g.pages + [[]]))
  }

  /** All is sound but for space `s`, which has no threads and is not on the free list. */
  ghost predicate SoundBut(w: World, s: nat) {
    && FramesListed(w.m, w.g) && ThreadsListed(w.m, w.g)
    && Partition(SpaceNext(w.m.spaces), [w.m.freeSpace], w.g.spaceOn, [w.g.freeSpaces])
    && s < |w.g.members| == |w.m.spaces| && w.g.members[s] == [] && w.g.spaceOn[s] == NIL
    && forall x {:trigger w.g.spaceOn[x]} :: 0 <= x < |w.m.spaces| && x != s ==> w.g.spaceOn[x] == if w.g.members[x] == [] then 0 else NIL
  }

  lemma FreeSpaceHead(w: World)
    requires Sound(w)
    ensures w.m.freeSpace == NIL <==> w.g.freeSpaces == []
    ensures w.m.freeSpace != NIL ==>
              && 0 <= w.m.freeSpace < |w.m.spaces| && w.g.freeSpaces[0] == w.m.freeSpace
              && w.g.spaceOn[w.m.freeSpace] == 0 && w.g.members[w.m.freeSpace] == []
  {
    assert Chain(SpaceNext(w.m.spaces), [w.m.freeSpace][0], [w.g.freeSpaces][0]);
    if w.g.freeSpaces != [] {
      assert w.g.spaceOn[[w.g.freeSpaces][0][0]] == 0;
    }
  }

  lemma SpaceReusedKeeps(w: World)
    requires Sound(w) && w.m.freeSpace != NIL
    ensures w.g.freeSpaces != [] && 0 <= w.m.freeSpace < |w.m.spaces|
    ensures SoundBut(SpaceReused(w), w.m.freeSpace)
  {
    FreeSpaceHead(w);
    var s := w.m.freeSpace;
    var v := SpaceReused(w);
    assert [w.g.freeSpaces][0] == w.g.freeSpaces;
    Unlinked(SpaceNext(w.m.spaces), [w.m.freeSpace], w.g.spaceOn, [w.g.freeSpaces], 0, 0, NIL);
    assert SpaceNext(v.m.spaces) == SpaceNext(w.m.spaces)[s := NIL];
    assert [w.m.freeSpace][0 := SpaceNext(w.m.spaces)[s]] == [v.m.freeSpace];
    assert [w.g.freeSpaces][0 := Without(w.g.freeSpaces, 0)] == [v.g.freeSpaces];
    assert Chain(ThreadNext(w.m.threads), ThreadHeads(w.m.spaces)[s], w.g.members[s]);
    assert ThreadHeads(v.m.spaces) == ThreadHeads(w.m.spaces);
    SameThreads(w, v);
  }

  lemma SpaceMadeKeeps(w: World)
    requires Sound(w)
    ensures SoundBut(SpaceMade(w), |w.m.spaces|)
  {
    var v := SpaceMade(w);
    Grown(SpaceNext(w.m.spaces), [w.m.freeSpace], w.g.spaceOn, [w.g.freeSpaces], NIL);
    assert SpaceNext(v.m.spaces) == SpaceNext(w.m.spaces) + [NIL];
    Widened(PageNext(w.m.pages), w.g.pageHeads, w.g.pageOn, w.g.pages);
    Widened(ThreadNext(w.m.threads), ThreadHeads(w.m.spaces), w.g.threadIn, w.g.members);
    assert ThreadHeads(v.m.spaces) == ThreadHeads(w.m.spaces) + [NIL];
    forall t | 0 <= t < |v.m.threads|
      ensures if v.g.threadIn[t] >= 0 then v.m.threads[t].space == v.g.threadIn[t] else v.g.threadIn[t] == NIL
      ensures v.g.threadOn[t] == if v.g.threadIn[t] >= 0 then 0 else NIL
    {
      var r := w.m.threads[t];
    }
  }

  /** The first thread of a space makes it live. */
  lemma FirstThreadKeeps(w: World, id: Word, s: nat)
    requires SoundBut(w, s)
    ensures Sound(ThreadJoined(w, id, s))
  {
    var v := ThreadJoined(w, id, s);
    assert SpaceNext(v.m.spaces) == SpaceNext(w.m.spaces);
    assert ThreadHeads(v.m.spaces) == ThreadHeads(w.m.spaces)[s := |w.m.threads|];
    AddedListed(w.m, w.g, v.m, v.g, id, s);
  }

  /** A thread with a space of its own. */
  function ThreadStarted(w: World, id: Word): World
    requires Sound(w)
  {
    FreeSpaceHead(w);
    if w.m.freeSpace == NIL then ThreadJoined(SpaceMade(w), id, |w.m.spaces|) else ThreadJoined(SpaceReused(w), id, w.m.freeSpace)
  }

  lemma ThreadStartedKeeps(w: World, id: Word)
    requires Sound(w)
    ensures Sound(ThreadStarted(w, id))
  {
    FreeSpaceHead(w);
    if w.m.freeSpace == NIL {
      SpaceMadeKeeps(w);
      FirstThreadKeeps(SpaceMade(w), id, |w.m.spaces|);
    } else {
      SpaceReusedKeeps(w);
      FirstThreadKeeps(SpaceReused(w), id, w.m.freeSpace);
    }
  }

  // ----- a thread goes -----

  /** The thread at place `j` is taken off the global list. */
  function Unlisted(threads: seq<Thread>, all: seq<int>, j: nat, t: nat): (r: seq<Thread>)
    requires j < |all| && (j > 0 ==> 0 <= all[j - 1] < |threads|) && t < |threads|
    ensures |r| == |threads| && ThreadNext(r) == ThreadNext(threads)
    ensures forall u {:trigger r[u]} :: 0 <= u < |threads| ==> r[u] == threads[u].(globalNext := r[u].globalNext)
  {
    var r := if j == 0 then threads else threads[all[j - 1] := threads[all[j - 1]].(globalNext := threads[t].globalNext)];
    assert ThreadNext(r) == ThreadNext(threads);
    r
  }

  /** The thread at place `k` is taken off its space's list. */
  function Unjoined(threads: seq<Thread>, items: seq<int>, k: nat, t: nat): (r: seq<Thread>)
    requires k < |items| && (k > 0 ==> 0 <= items[k - 1] < |threads|) && t < |threads|
    ensures |r| == |threads| && GlobalNext(r) == GlobalNext(threads)
    ensures forall u {:trigger r[u]} :: 0 <= u < |threads| ==> r[u] == threads[u].(next := r[u].next)
  {
    var r := if k == 0 then threads else threads[items[k - 1] := threads[items[k - 1]].(next := threads[t].next)];
    assert GlobalNext(r) == GlobalNext(threads);
    r
  }

  /** Thread `t` is at place `k` of its space's list and at place `j` of the global list. */
  ghost predicate AtPlaces(w: World, t: nat, k: nat, j: nat) {
    && t < |w.m.threads| == |w.g.threadIn| == |w.g.threadOn|
    && 0 <= w.m.threads[t].space < |w.m.spaces| == |w.g.members|
    && var items := w.g.members[w.m.threads[t].space];
    && k < |items| && items[k] == t && (k > 0 ==> 0 <= items[k - 1] < |w.m.threads|)
    && j < |w.g.all| && w.g.all[j] == t && (j > 0 ==> 0 <= w.g.all[j - 1] < |w.m.threads|)
  }

  /** The thread is taken off both lists. */
  ghost function ThreadGone(w: World, t: nat, k: nat, j: nat): World
    requires AtPlaces(w, t, k, j)
  {
    var s := w.m.threads[t].space;
    var items := w.g.members[s];
    var threads1 := Unlisted(w.m.threads, w.g.all, j, t);
    World(w.m.(threads := Unjoined(threads1, items, k, t),
               firstThread := if j == 0 then w.m.threads[t].globalNext else w.m.firstThread,
               spaces := if k == 0 then w.m.spaces[s := w.m.spaces[s].(firstThread := threads1[t].next)] else w.m.spaces),
          w.g.(threadIn := w.g.threadIn[t := NIL], members := w.g.members[s := Without(items, k)],
               threadOn := w.g.threadOn[t := NIL], all := Without(w.g.all, j)))
  }

  /** The records after a thread is taken off the global list, which gives `threads1`, and then off its space's. */
  lemma GoneFields(w: World, t: nat, k: nat, j: nat, threads1: seq<Thread>, m: Memory)
    requires AtPlaces(w, t, k, j) && threads1 == Unlisted(w.m.threads, w.g.all, j, t)
    requires var s := w.m.threads[t].space;
             m == w.m.(threads := Unjoined(threads1, w.g.members[s], k, t),
                       firstThread := if j == 0 then w.m.threads[t].globalNext else w.m.firstThread,
                       spaces := if k == 0 then w.m.spaces[s := w.m.spaces[s].(firstThread := threads1[t].next)] else w.m.spaces)
    ensures ThreadGone(w, t, k, j).m == m
  {
  }

  /** A space without threads goes to the free list, and its frames with it. */
  function SpaceFreed(w: World, s: nat): World
    requires s < |w.m.spaces| == |w.g.spaceOn| && s + 1 < |w.g.pages| == |w.g.pageHeads|
    requires |w.g.pages[s + 1]| > 0 && 0 <= w.g.pages[s + 1][|w.g.pages[s + 1]| - 1] < |w.m.pages|
  {
    var items := w.g.pages[s + 1];
    var last := items[|items| - 1];
    World(w.m.(pages := w.m.pages[last := w.m.pages[last].(next := w.m.freePage)], freePage := w.m.spaces[s].firstPage,
               spaces := w.m.spaces[s := w.m.spaces[s].(nextFree := w.m.freeSpace)], freeSpace := s),
          w.g.(pageHeads := w.g.pageHeads[0 := w.g.pageHeads[s + 1]][s + 1 := NIL], pageOn := Moved(w.g.pageOn, s + 1, 0),
               pages := w.g.pages[0 := items + w.g.pages[0]][s + 1 := []],
               spaceOn := w.g.spaceOn[s := 0], freeSpaces := With(w.g.freeSpaces, 0, s)))
  }

  /** A live thread's places on its lists. */
  lemma Places(w: World, t: nat) returns (k: nat, j: nat)
    requires Sound(w) && t < |w.m.threads| && w.g.threadIn[t] >= 0
    ensures AtPlaces(w, t, k, j)
    ensures Chain(ThreadNext(w.m.threads), w.m.spaces[w.m.threads[t].space].firstThread, w.g.members[w.m.threads[t].space])
    ensures Chain(GlobalNext(w.m.threads), w.m.firstThread, w.g.all)
  {
    var r := w.m.threads[t];
    k := Place(w.g.members[r.space], t);
    assert [w.g.all][0] == w.g.all && t in [w.g.all][w.g.threadOn[t]];
    j := Place(w.g.all, t);
    assert Chain(ThreadNext(w.m.threads), ThreadHeads(w.m.spaces)[r.space], w.g.members[r.space]);
    assert Chain(GlobalNext(w.m.threads), [w.m.firstThread][0], [w.g.all][0]);
  }

  lemma GoneGlobally(w: World, t: nat, k: nat, j: nat)
    requires ThreadsListed(w.m, w.g) && AtPlaces(w, t, k, j)
    ensures var v := ThreadGone(w, t, k, j);
            Partition(GlobalNext(v.m.threads), [v.m.firstThread], v.g.threadOn, [v.g.all])
  {
    var v := ThreadGone(w, t, k, j);
    var n := GlobalNext(w.m.threads);
    assert [w.g.all][0] == w.g.all;
    Unlinked(n, [w.m.firstThread], w.g.threadOn, [w.g.all], 0, j, NIL);
    var n1 := if j == 0 then n else n[w.g.all[j - 1] := n[t]];
    var heads1 := if j == 0 then [w.m.firstThread][0 := n[t]] else [w.m.firstThread];
    assert heads1 == [v.m.firstThread];
    assert [w.g.all][0 := Without(w.g.all, j)] == [v.g.all];
    Aside(n1[t := NIL], heads1, v.g.threadOn, [v.g.all], t, n1[t], NIL);
    assert n1[t := NIL][t := n1[t]] == n1 && v.g.threadOn[t := NIL] == v.g.threadOn;
    assert GlobalNext(v.m.threads) == n1;
  }

  lemma GoneFromSpace(w: World, t: nat, k: nat, j: nat)
    requires ThreadsListed(w.m, w.g) && AtPlaces(w, t, k, j)
    ensures var v := ThreadGone(w, t, k, j);
            Partition(ThreadNext(v.m.threads), ThreadHeads(v.m.spaces), v.g.threadIn, v.g.members)
  {
    var s := w.m.threads[t].space;
    var items := w.g.members[s];
    var v := ThreadGone(w, t, k, j);
    var n := ThreadNext(w.m.threads);
    Unlinked(n, ThreadHeads(w.m.spaces), w.g.threadIn, w.g.members, s, k, NIL);
    var n1 := if k == 0 then n else n[items[k - 1] := n[t]];
    assert ThreadHeads(v.m.spaces) == if k == 0 then ThreadHeads(w.m.spaces)[s := n[t]] else ThreadHeads(w.m.spaces);
    Aside(n1[t := NIL], ThreadHeads(v.m.spaces), v.g.threadIn, v.g.members, t, n1[t], NIL);
    assert n1[t := NIL][t := n1[t]] == n1 && v.g.threadIn[t := NIL] == v.g.threadIn;
    assert ThreadNext(v.m.threads) == n1;
  }

  lemma GoneListed(w: World, t: nat, k: nat, j: nat)
    requires ThreadsListed(w.m, w.g) && AtPlaces(w, t, k, j)
    ensures ThreadsListed(ThreadGone(w, t, k, j).m, ThreadGone(w, t, k, j).g)
  {
    GoneGlobally(w, t, k, j);
    GoneFromSpace(w, t, k, j);
    var v := ThreadGone(w, t, k, j);
    forall u | 0 <= u < |v.m.threads|
      ensures v.m.threads[u].space == w.m.threads[u].space
    {
    }
    forall u | 0 <= u < |v.m.threads|
      ensures if v.g.threadIn[u] >= 0 then v.m.threads[u].space == v.g.threadIn[u] else v.g.threadIn[u] == NIL
      ensures v.g.threadOn[u] == if v.g.threadIn[u] >= 0 then 0 else NIL
    {
      var r := w.m.threads[u];
    }
  }

  lemma ThreadGoneKeeps(w: World, t: nat, k: nat, j: nat)
    requires Sound(w) && AtPlaces(w, t, k, j)
    ensures var s, v := w.m.threads[t].space, ThreadGone(w, t, k, j);
            && (v.g.members[s] == [] <==> w.g.members[s] == [t])
            && if v.g.members[s] == [] then SoundBut(v, s) else Sound(v)
  {
    GoneListed(w, t, k, j);
    var s, v := w.m.threads[t].space, ThreadGone(w, t, k, j);
    assert |v.g.members[s]| == |w.g.members[s]| - 1;
    assert w.g.spaceOn[s] == NIL;
    assert SpaceNext(v.m.spaces) == SpaceNext(w.m.spaces);
  }

  /** Links do not matter to the addresses. */
  lemma StillNumbered(pages: seq<Page>, nextStart: int, p: nat, link: int)
    requires Numbered(pages, nextStart) && p < |pages|
    ensures Numbered(pages[p := pages[p].(next := link)], nextStart)
  {
  }

  lemma FreedHead(w: World, s: nat, x: nat)
    requires FramesListed(w.m, w.g) && s < |w.m.spaces| && w.g.spaceOn[s] == NIL && |w.g.pages[s + 1]| > 0 && x < |w.m.spaces|
    requires 0 <= w.g.pages[s + 1][|w.g.pages[s + 1]| - 1] < |w.m.pages|
    ensures var v := SpaceFreed(w, s);
            && v.g.pageHeads[0] == v.m.freePage
            && v.g.pageHeads[x + 1] == if v.g.spaceOn[x] == NIL then v.m.spaces[x].firstPage else NIL
  {
    var mine, other := w.m.spaces[s], w.m.spaces[x];
  }

  /** The links, heads and lists of frames once the frames of a space are free. */
  lemma FreedFields(w: World, s: nat, last: nat)
    requires FramesListed(w.m, w.g) && s < |w.m.spaces| && |w.g.spaceOn| == |w.m.spaces| && |w.g.pages[s + 1]| > 0
    requires last == w.g.pages[s + 1][|w.g.pages[s + 1]| - 1] < |w.m.pages|
    ensures var v := SpaceFreed(w, s);
            && PageNext(v.m.pages) == PageNext(w.m.pages)[last := w.g.pageHeads[0]]
            && v.g.pageHeads == w.g.pageHeads[0 := w.g.pageHeads[s + 1]][s + 1 := NIL] && v.g.pageOn == Moved(w.g.pageOn, s + 1, 0)
            && v.g.pages == w.g.pages[0 := w.g.pages[s + 1] + w.g.pages[0]][s + 1 := []]
  {
    PageUpdated(w.m.pages, last, w.m.pages[last].(next := w.m.freePage));
  }

  lemma FreedPartition(w: World, s: nat)
    requires FramesListed(w.m, w.g) && s < |w.m.spaces| && w.g.spaceOn[s] == NIL && |w.g.pages[s + 1]| > 0
    ensures 0 <= w.g.pages[s + 1][|w.g.pages[s + 1]| - 1] < |w.m.pages|
    ensures var v := SpaceFreed(w, s);
            Partition(PageNext(v.m.pages), v.g.pageHeads, v.g.pageOn, v.g.pages)
  {
    Joined(PageNext(w.m.pages), w.g.pageHeads, w.g.pageOn, w.g.pages, s + 1, 0);
    FreedFields(w, s, w.g.pages[s + 1][|w.g.pages[s + 1]| - 1]);
  }

  lemma FreedFramesListed(w: World, s: nat)
    requires FramesListed(w.m, w.g) && s < |w.m.spaces| && w.g.spaceOn[s] == NIL && |w.g.pages[s + 1]| > 0
    ensures 0 <= w.g.pages[s + 1][|w.g.pages[s + 1]| - 1] < |w.m.pages|
    ensures FramesListed(SpaceFreed(w, s).m, SpaceFreed(w, s).g)
  {
    FreedPartition(w, s);
    var v := SpaceFreed(w, s);
    StillNumbered(w.m.pages, w.m.nextStart, w.g.pages[s + 1][|w.g.pages[s + 1]| - 1], w.m.freePage);
    FreedHead(w, s, s);
    forall x | 0 <= x < |v.m.spaces|
      ensures v.g.pageHeads[x + 1] == if v.g.spaceOn[x] == NIL then v.m.spaces[x].firstPage else NIL
    {
      FreedHead(w, s, x);
    }
  }

  lemma SpaceFreedKeeps(w: World, s: nat)
    requires SoundBut(w, s) && |w.g.pages[s + 1]| > 0
    ensures 0 <= w.g.pages[s + 1][|w.g.pages[s + 1]| - 1] < |w.m.pages|
    ensures Sound(SpaceFreed(w, s))
  {
    FreedFramesListed(w, s);
    var v := SpaceFreed(w, s);
    Pushed(SpaceNext(w.m.spaces), [w.m.freeSpace], w.g.spaceOn, [w.g.freeSpaces], 0, s);
    assert SpaceNext(v.m.spaces) == SpaceNext(w.m.spaces)[s := w.m.freeSpace];
    assert [w.m.freeSpace][0 := s] == [v.m.freeSpace] && [w.g.freeSpaces][0 := With(w.g.freeSpaces, 0, s)] == [v.g.freeSpaces];
    assert ThreadHeads(v.m.spaces) == ThreadHeads(w.m.spaces);
    SameThreads(w, v);
  }

  /** What the heads of a space's lists tell. */
  lemma HeadsTell(w: World, s: nat)
    requires FramesListed(w.m, w.g) && ThreadsListed(w.m, w.g) && s < |w.m.spaces| && w.g.spaceOn[s] == NIL
    ensures w.m.spaces[s].firstThread == NIL <==> w.g.members[s] == []
    ensures w.m.spaces[s].firstPage == NIL <==> w.g.pages[s + 1] == []
    ensures Chain(PageNext(w.m.pages), w.m.spaces[s].firstPage, w.g.pages[s + 1])
  {
  }

  /** Thread `t` left, and its space too if it was the last one there. */
  ghost predicate Removed(w: World, t: nat, k: nat, j: nat, v: World) {
    && Sound(w) && AtPlaces(w, t, k, j)
    && var s, gone := w.m.threads[t].space, ThreadGone(w, t, k, j);
    if w.g.members[s] == [t] then
      |w.g.pages[s + 1]| > 0 && 0 <= w.g.pages[s + 1][|w.g.pages[s + 1]| - 1] < |w.m.pages| && v == SpaceFreed(gone, s)
    else v == gone
  }

  /** Every frame is on a list then. */
  lemma RemovedIsHomed(w: World, t: nat, k: nat, j: nat, v: World)
    requires Removed(w, t, k, j, v) && Homed(w)
    ensures Homed(v)
  {
    assert ThreadGone(w, t, k, j).g.pageOn == w.g.pageOn;
  }

  /** What is left of a thread that goes, once its space is given back if it has no threads any more. */
  lemma DeletedIs(w: World, t: nat, k: nat, j: nat, gone: World, v: World, ok: bool)
    requires Sound(w) && Homed(w) && AtPlaces(w, t, k, j) && gone == ThreadGone(w, t, k, j)
    requires var s := w.m.threads[t].space;
             && s < |gone.g.members| == |gone.g.pages| - 1 == |gone.m.spaces| && (gone.g.members[s] == [] <==> w.g.members[s] == [t])
             && (!ok <==> gone.g.members[s] == [] && gone.g.pages[s + 1] == [])
             && (ok && gone.g.members[s] != [] ==> v == gone)
             && (ok && gone.g.members[s] == [] ==>
                   && |gone.g.pages[s + 1]| > 0 && 0 <= gone.g.pages[s + 1][|gone.g.pages[s + 1]| - 1] < |gone.m.pages|
                   && |gone.g.spaceOn| == |gone.m.spaces| && |gone.g.pageHeads| == |gone.g.pages| && v == SpaceFreed(gone, s))
    ensures !ok <==> w.g.members[w.m.threads[t].space] == [t] && w.g.pages[w.m.threads[t].space + 1] == []
    ensures ok ==> Removed(w, t, k, j, v) && Homed(v)
  {
    assert gone.g.pages == w.g.pages && gone.m.pages == w.m.pages;
    if ok {
      RemovedIsHomed(w, t, k, j, v);
    }
  }

  /** The frames of a space whose last thread goes, and no others, are free then. */
  lemma LastThreadFreesFrames(w: World, t: nat, k: nat, j: nat, v: World, l: nat)
    requires Removed(w, t, k, j, v) && l < |w.g.pages|
    ensures var s := w.m.threads[t].space;
            v.g.pages[l] == if w.g.members[s] != [t] then w.g.pages[l]
                            else if l == 0 then w.g.pages[s + 1] + w.g.pages[0]
                            else if l == s + 1 then [] else w.g.pages[l]
  {
    var s, gone := w.m.threads[t].space, ThreadGone(w, t, k, j);
    assert gone.g.pages == w.g.pages && s + 1 < |w.g.pages|;
    if w.g.members[s] == [t] {
      assert v.g.pages == w.g.pages[0 := w.g.pages[s + 1] + w.g.pages[0]][s + 1 := []];
    }
  }

  /** A thread that goes puts no frame on the list of a space. */
  lemma RemovedGivesNoFrame(w: World, t: nat, k: nat, j: nat, v: World, p: nat)
    requires Removed(w, t, k, j, v) && p < |w.g.pageOn|
    ensures |v.g.pageOn| == |w.g.pageOn| && v.g.pageOn[p] in {w.g.pageOn[p], 0}
  {
    assert ThreadGone(w, t, k, j).g.pageOn == w.g.pageOn;
  }

  /** Thread `t` is off the lists, at place `j` and `k`, and everything else on them is as it was; so are the other records but
      for their links. */
  ghost predicate Forgets(w: World, t: nat, k: nat, j: nat, v: World)
    requires AtPlaces(w, t, k, j)
  {
    var s := w.m.threads[t].space;
    && v.g.all == w.g.all[..j] + w.g.all[j + 1..]
    && |v.g.members| == |w.g.members| && v.g.members[s] == w.g.members[s][..k] + w.g.members[s][k + 1..]
    && (forall x {:trigger v.g.members[x]} :: 0 <= x < |v.g.members| && x != s ==> v.g.members[x] == w.g.members[x])
    && |v.m.threads| == |w.m.threads|
    && forall u {:trigger v.m.threads[u]} :: 0 <= u < |v.m.threads| && u != t ==>
         v.m.threads[u].id == w.m.threads[u].id && v.m.threads[u].space == w.m.threads[u].space
  }

  lemma WithoutSlices(items: seq<int>, k: nat)
    requires k < |items|
    ensures Without(items, k) == items[..k] + items[k + 1..]
  {
  }

  lemma RemovedForgets(w: World, t: nat, k: nat, j: nat, v: World)
    requires Removed(w, t, k, j, v)
    ensures Forgets(w, t, k, j, v)
  {
    WithoutSlices(w.g.all, j);
    WithoutSlices(w.g.members[w.m.threads[t].space], k);
  }

  /** With its last thread a space goes to the front of the list of free spaces; otherwise that list stays. */
  lemma RemovedFreesSpace(w: World, t: nat, k: nat, j: nat, v: World)
    requires Removed(w, t, k, j, v)
    ensures var s := w.m.threads[t].space;
            if w.g.members[s] == [t] then
              && v.g.freeSpaces == [s] + w.g.freeSpaces && v.m.freeSpace == s
              && |v.m.spaces| == |w.m.spaces| && v.m.spaces[s].nextFree == w.m.freeSpace
            else v.g.freeSpaces == w.g.freeSpaces && v.m.freeSpace == w.m.freeSpace
  {
    InFront(w.g.freeSpaces, w.m.threads[t].space);
  }
}
