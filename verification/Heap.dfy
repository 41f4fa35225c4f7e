/** The next-fit heap: a ring of free blocks, threaded through the block headers in address order. */
module Heap {
  import opened Words
  import opened Sequences
  import opened Arena

  function Succ(i: nat, n: nat): nat
    requires i < n
  {
    if i + 1 == n then 0 else i + 1
  }

  function Pred(i: nat, n: nat): nat
    requires i < n
  {
    if i == 0 then n - 1 else i - 1
  }

  /** Steps along the ring from position `i` to position `k`. */
  function Dist(i: nat, k: nat, n: nat): nat
    requires i < n && k < n
  {
    if i <= k then k - i else k + n - i
  }

  /** One step along the ring brings every other position but the one left closer by one. */
  lemma DistStep(j: nat, k: nat, n: nat)
    requires j < n && k < n && j != k
    ensures Dist(Succ(j, n), k, n) == Dist(j, k, n) - 1
    ensures forall i :: 0 <= i < n && i != j ==> Dist(i, k, n) != Dist(j, k, n)
    ensures Pred(Succ(j, n), n) == j
  {
  }

  /** The header cells at the free blocks' starts form a ring in address order. */
  ghost predicate Ring(free: seq<Block>, next: seq<int>) {
    && |free| >= 1
    && (forall i {:trigger free[i]} :: 0 <= i < |free| ==> 0 <= free[i].start < |next|)
    && (forall i {:trigger next[free[i].start]} :: 0 <= i < |free| - 1 ==> next[free[i].start] == free[i + 1].start)
    && next[free[|free| - 1].start] == free[0].start
  }

  ghost predicate Sizes(free: seq<Block>, live: map<int, int>, size: seq<int>) {
    && (forall i {:trigger free[i]} :: 0 <= i < |free| ==> 0 <= free[i].start < |size| && size[free[i].start] == free[i].size)
    && (forall b {:trigger b in live} :: b in live ==> 0 <= b < |size| && size[b] == live[b])
  }

  // ----- the ring under the heap's edits -----

  /** The ring at one position. */
  lemma RingAt(free: seq<Block>, next: seq<int>, i: nat)
    requires Ring(free, next) && i < |free|
    ensures next[free[i].start] == free[Succ(i, |free|)].start
  {
  }

  lemma RingFrom(free: seq<Block>, next: seq<int>)
    requires |free| >= 1 && forall i {:trigger free[i]} :: 0 <= i < |free| ==> 0 <= free[i].start < |next|
    requires forall i {:trigger Succ(i, |free|)} :: 0 <= i < |free| ==> next[free[i].start] == free[Succ(i, |free|)].start
    ensures Ring(free, next)
  {
    forall i | 0 <= i < |free| - 1
      ensures next[free[i].start] == free[i + 1].start
    {
      assert Succ(i, |free|) == i + 1;
    }
    assert Succ(|free| - 1, |free|) == 0;
  }

  ghost predicate Ascending(free: seq<Block>) {
    forall i, j {:trigger free[i], free[j]} :: 0 <= i < j < |free| ==> free[i].start < free[j].start
  }

  lemma RingUnlinkedAt(free: seq<Block>, next: seq<int>, j: nat, i: nat)
    requires Ascending(free) && Ring(free, next) && j < |free| && i < |free| - 1
    ensures var p := free[Pred(j, |free|)].start;
            next[p := next[free[j].start]][Without(free, j)[i].start] == Without(free, j)[Succ(i, |free| - 1)].start
  {
    var n, k := |free|, if i < j then i else i + 1;
    var r, pred := Without(free, j), Pred(j, n);
    assert r[i] == free[k];
    RingAt(free, next, k);
    if k == pred {
      RingAt(free, next, j);
      assert r[Succ(i, n - 1)] == free[Succ(j, n)];
    } else {
      assert free[k].start != free[pred].start;
      assert r[Succ(i, n - 1)] == free[Succ(k, n)];
    }
  }

  /** Unlinking the `j`-th block from a ring of at least two. */
  lemma RingUnlinked(free: seq<Block>, next: seq<int>, j: nat)
    requires Ascending(free) && Ring(free, next) && j < |free| && |free| >= 2
    ensures var p := free[Pred(j, |free|)].start;
            Ring(Without(free, j), next[p := next[free[j].start]])
  {
    var r, next' := Without(free, j), next[free[Pred(j, |free|)].start := next[free[j].start]];
    forall i | 0 <= i < |r|
      ensures 0 <= r[i].start < |next'| && next'[r[i].start] == r[Succ(i, |r|)].start
    {
      RingUnlinkedAt(free, next, j, i);
      assert r[i] == free[if i < j then i else i + 1];
    }
    RingFrom(r, next');
  }

  /** Only starts matter to the ring. */
  lemma RingResized(free: seq<Block>, free': seq<Block>, next: seq<int>)
    requires Ring(free, next) && |free'| == |free|
    requires forall i {:trigger free'[i]} :: 0 <= i < |free| ==> free'[i].start == free[i].start
    ensures Ring(free', next)
  {
  }

  /** Cells that hold no free block's header do not matter to the ring. */
  lemma StrangeCell(free: seq<Block>, next: seq<int>, u: int, link: int)
    requires Ring(free, next) && 0 <= u < |next| && forall i {:trigger free[i]} :: 0 <= i < |free| ==> free[i].start != u
    ensures Ring(free, next[u := link])
  {
  }

  /** Taking a block keeps the ring, unless it would take the only block whole. */
  lemma RingTaken(free: seq<Block>, next: seq<int>, j: nat, n: int)
    requires Ascending(free) && Ring(free, next) && j < |free| && 1 <= n <= free[j].size && !(|free| == 1 && free[j].size == n)
    ensures Ring(Taken(free, j, n), TakenNext(next, free[Pred(j, |free|)].start, free[j].start, free[j].size == n))
  {
    if free[j].size == n {
      RingUnlinked(free, next, j);
    } else {
      RingResized(free, Taken(free, j, n), next);
    }
  }

  lemma RingLinkedAt(free: seq<Block>, next: seq<int>, g: nat, b: Block, i: nat)
    requires Ring(free, next) && g <= |free| && Ascending(With(free, g, b)) && 0 <= b.start < |next| && i < |free| + 1
    ensures var p := free[if g == 0 then |free| - 1 else g - 1].start;
            next[b.start := next[p]][p := b.start][With(free, g, b)[i].start] == With(free, g, b)[Succ(i, |free| + 1)].start
  {
    var n := |free|;
    var pi := if g == 0 then n - 1 else g - 1;
    var r := With(free, g, b);
    RingAt(free, next, pi);
    assert r[g] == b && r[if g == 0 then n else g - 1] == free[pi];
    if i != g {
      var k := if i < g then i else i - 1;
      RingAt(free, next, k);
      assert r[i] == free[k];
      if k != pi {
        assert r[Succ(i, n + 1)] == free[Succ(k, n)];
      } else {
        assert Succ(i, n + 1) == g;
      }
    } else {
      assert r[Succ(g, n + 1)] == free[Succ(pi, n)];
    }
  }

  /** Linking `b` in at position `g`. */
  lemma RingLinked(free: seq<Block>, next: seq<int>, g: nat, b: Block)
    requires Ring(free, next) && g <= |free| && Ascending(With(free, g, b)) && 0 <= b.start < |next|
    ensures var p := free[if g == 0 then |free| - 1 else g - 1].start;
            Ring(With(free, g, b), next[b.start := next[p]][p := b.start])
  {
    var p := free[if g == 0 then |free| - 1 else g - 1].start;
    var r, next' := With(free, g, b), next[b.start := next[p]][p := b.start];
    forall i | 0 <= i < |r|
      ensures r[i] == if i < g then free[i] else if i == g then b else free[i - 1]
    {
    }
    forall i | 0 <= i < |r|
      ensures next'[r[i].start] == r[Succ(i, |r|)].start
    {
      RingLinkedAt(free, next, g, b, i);
    }
    RingFrom(r, next');
  }

  /** Putting `b` in the place of the `g`-th block of a ring of at least two. */
  lemma RingReplaced(free: seq<Block>, next: seq<int>, g: nat, b: Block)
    requires Ring(free, next) && g < |free| && |free| >= 2 && Ascending(free) && Ascending(free[g := b]) && 0 <= b.start < |next|
    requires b.start != free[g].start
    ensures var p := free[Pred(g, |free|)].start;
            Ring(free[g := b], next[b.start := next[free[g].start]][p := b.start])
  {
    var n := |free|;
    var p := free[Pred(g, n)].start;
    var r, next' := free[g := b], next[b.start := next[free[g].start]][p := b.start];
    RingAt(free, next, g);
    forall i | 0 <= i < n
      ensures next'[r[i].start] == r[Succ(i, n)].start
    {
      RingAt(free, next, i);
      assert r[g].start != r[Pred(g, n)].start && r[Pred(g, n)] == free[Pred(g, n)];
    }
    RingFrom(r, next');
  }

  /** The header links after a block at `bp` is given back between `p` and its successor, which it joins or not. */
  function FreedNext(next: seq<int>, p: int, bp: int, upper: bool, lower: bool): (r: seq<int>)
    requires 0 <= p < |next| && 0 <= bp < |next| && 0 <= next[p] < |next|
    ensures |r| == |next|
  {
    var q := next[p];
    var next1 := next[bp := if upper then next[q] else q];
    next1[p := if lower then next1[bp] else bp]
  }

  /** The free list before the join with the lower neighbour. */
  function JoinedUpper(free: seq<Block>, g: nat, b: Block): seq<Block>
    requires g <= |free|
  {
    if JoinsUpper(free, g, b) then free[g := Block(b.start, End(free[g]) - b.start)] else With(free, g, b)
  }

  /** Where the search of `free` ends: the last block below position `g`, or the highest block. */
  function Before(g: nat, n: nat): nat
    requires 1 <= n
  {
    if g == 0 then n - 1 else g - 1
  }

  lemma JoinedUpperAscends(free: seq<Block>, g: nat, b: Block)
    requires FreeList(free) && b.size >= 1 && Gap(free, g, b.start)
    ensures Ascending(JoinedUpper(free, g, b)) && Ascending(free)
  {
  }

  lemma RingJoinedUpper(free: seq<Block>, next: seq<int>, g: nat, b: Block)
    requires Ring(free, next) && g <= |free| && Ascending(free) && Ascending(JoinedUpper(free, g, b))
    requires b.size >= 1 && 0 <= b.start < |next| && !(|free| == 1 && JoinsUpper(free, g, b))
    ensures var p := free[Before(g, |free|)].start;
            && 0 <= p < |next| && 0 <= next[p] < |next|
            && Ring(JoinedUpper(free, g, b), FreedNext(next, p, b.start, JoinsUpper(free, g, b), false))
  {
    var p := free[Before(g, |free|)].start;
    RingAt(free, next, Before(g, |free|));
    if JoinsUpper(free, g, b) {
      assert next[p] == free[g].start;
      assert FreedNext(next, p, b.start, true, false) == next[b.start := next[free[g].start]][p := b.start];
      RingReplaced(free, next, g, Block(b.start, End(free[g]) - b.start));
    } else {
      assert FreedNext(next, p, b.start, false, false) == next[b.start := next[p]][p := b.start];
      RingLinked(free, next, g, b);
    }
  }

  /** Giving a block back keeps the ring, unless the ring has a single block and `b` joins it from below. */
  lemma RingReleased(free: seq<Block>, next: seq<int>, g: nat, b: Block)
    requires FreeList(free) && Ring(free, next) && b.size >= 1 && Gap(free, g, b.start) && 0 <= b.start < |next|
    requires !(|free| == 1 && JoinsUpper(free, g, b))
    ensures var p := free[Before(g, |free|)].start;
            && 0 <= p < |next| && 0 <= next[p] < |next|
            && Ring(Released(free, g, b), FreedNext(next, p, b.start, JoinsUpper(free, g, b), JoinsLower(free, g, b)))
  {
    JoinedUpperAscends(free, g, b);
    RingJoinedUpper(free, next, g, b);
    if JoinsLower(free, g, b) {
      RingJoinedLower(free, next, g, b);
    } else {
      ReleasedIsJoinedUpper(free, g, b);
    }
  }

  lemma ReleasedIsJoinedUpper(free: seq<Block>, g: nat, b: Block)
    requires g <= |free| && !JoinsLower(free, g, b)
    ensures Released(free, g, b) == JoinedUpper(free, g, b)
  {
  }

  lemma RingJoinedLower(free: seq<Block>, next: seq<int>, g: nat, b: Block)
    requires |free| >= 1 && g <= |free| && JoinsLower(free, g, b) && 0 <= b.start < |next| && b.start != free[g - 1].start
    requires 0 <= free[g - 1].start < |next| && 0 <= next[free[g - 1].start] < |next|
    requires Ascending(JoinedUpper(free, g, b))
    requires Ring(JoinedUpper(free, g, b), FreedNext(next, free[g - 1].start, b.start, JoinsUpper(free, g, b), false))
    ensures Ring(Released(free, g, b), FreedNext(next, free[g - 1].start, b.start, JoinsUpper(free, g, b), true))
  {
    var p, up, f1 := free[g - 1].start, JoinsUpper(free, g, b), JoinedUpper(free, g, b);
    var next1, next2 := FreedNext(next, p, b.start, up, false), FreedNext(next, p, b.start, up, true);
    assert f1[g].start == b.start && f1[g - 1] == free[g - 1];
    RingUnlinked(f1, next1, g);
    assert next1[p := next1[b.start]] == next2;
    UnlinkedIsReleased(free, g, b);
    RingResized(Without(f1, g), Released(free, g, b), next2);
  }

  lemma UnlinkedIsReleased(free: seq<Block>, g: nat, b: Block)
    requires g <= |free| && JoinsLower(free, g, b)
    ensures var r, w := Released(free, g, b), Without(JoinedUpper(free, g, b), g);
            |r| == |w| && forall i {:trigger r[i]} :: 0 <= i < |r| ==> r[i].start == w[i].start
  {
  }

  // ----- header sizes under the heap's edits -----

  /** A block gives up its last `n` units and the new block gets a header, or the block goes whole. */
  function TakenSize(size: seq<int>, p: int, n: int): (r: seq<int>)
    requires 0 <= p < |size| && (size[p] != n ==> 0 <= p + size[p] - n < |size|)
    ensures |r| == |size|
  {
    if size[p] == n then size else size[p := size[p] - n][p + size[p] - n := n]
  }

  /** The predecessor of a block that goes whole takes over its link. */
  function TakenNext(next: seq<int>, prevp: int, p: int, whole: bool): (r: seq<int>)
    requires 0 <= p < |next| && 0 <= prevp < |next|
    ensures |r| == |next|
  {
    if whole then next[prevp := next[p]] else next
  }

  lemma SizesTaken(free: seq<Block>, live: map<int, int>, own: seq<int>, size: seq<int>, j: nat, n: int)
    requires Tiled(free, live, own) && Sizes(free, live, size) && |own| == |size| && j < |free| && 1 <= n <= free[j].size
    ensures var b := TakenBlock(free, j, n);
            0 <= free[j].start <= b.start < |size| && Sizes(Taken(free, j, n), live[b.start := n], TakenSize(size, free[j].start, n))
  {
  }

  /** The block that holds the result of a merge has the sum of the merged sizes in its header. */
  function FreedSize(size: seq<int>, p: int, bp: int, q: int, upper: bool, lower: bool): (r: seq<int>)
    requires 0 <= p < |size| && 0 <= bp < |size| && 0 <= q < |size|
    ensures |r| == |size|
  {
    var size1 := if upper then size[bp := size[bp] + size[q]] else size;
    if lower then size1[p := size1[p] + size1[bp]] else size1
  }

  /** Headers of free blocks are neither the given block's nor those of blocks that are handed out. */
  lemma FreeHeaders(free: seq<Block>, live: map<int, int>, own: seq<int>, b: int)
    requires Tiled(free, live, own) && b in live
    ensures 0 <= b < |own|
    ensures forall i {:trigger free[i]} :: 0 <= i < |free| ==> 0 <= free[i].start < |own| && free[i].start != b && free[i].start !in live
  {
    assert Owns(own, Block(b, live[b])) && own[b] == b;
    forall i | 0 <= i < |free|
      ensures 0 <= free[i].start < |own|
    {
      assert Owns(own, free[i]);
    }
  }

  /** The size in the header of one block of the new list. */
  lemma SizesReleasedAt(free: seq<Block>, live: map<int, int>, own: seq<int>, size: seq<int>, g: nat, b: int, i: nat)
    requires Tiled(free, live, own) && Sizes(free, live, size) && |own| == |size| && |free| >= 1
    requires b in live && Gap(free, g, b) && i < |Released(free, g, Block(b, live[b]))|
    ensures var k := Block(b, live[b]);
            var p, q := free[Before(g, |free|)].start, free[if g < |free| then g else 0].start;
            var r := Released(free, g, k)[i];
            && 0 <= p < |size| && 0 <= q < |size| && 0 <= b < |size| && 0 <= r.start < |size|
            && FreedSize(size, p, b, q, JoinsUpper(free, g, k), JoinsLower(free, g, k))[r.start] == r.size
  {
    FreeHeaders(free, live, own, b);
    ReleasedAt(free, g, Block(b, live[b]), i);
  }

  lemma SizesReleased(free: seq<Block>, live: map<int, int>, own: seq<int>, size: seq<int>, g: nat, b: int)
    requires Tiled(free, live, own) && Sizes(free, live, size) && |own| == |size| && |free| >= 1
    requires b in live && Gap(free, g, b)
    ensures var k := Block(b, live[b]);
            var p, q := free[Before(g, |free|)].start, free[if g < |free| then g else 0].start;
            && 0 <= p < |size| && 0 <= q < |size| && 0 <= b < |size|
            && Sizes(Released(free, g, k), live - {b}, FreedSize(size, p, b, q, JoinsUpper(free, g, k), JoinsLower(free, g, k)))
  {
    var k := Block(b, live[b]);
    FreeHeaders(free, live, own, b);
    var r := Released(free, g, k);
    forall i | 0 <= i < |r|
      ensures 0 <= r[i].start < |size|
      ensures var p, q := free[Before(g, |free|)].start, free[if g < |free| then g else 0].start;
              FreedSize(size, p, b, q, JoinsUpper(free, g, k), JoinsLower(free, g, k))[r[i].start] == r[i].size
    {
      SizesReleasedAt(free, live, own, size, g, b, i);
    }
  }

  // ----- searching the ring -----

  lemma AllAscend(free: seq<Block>)
    requires FreeList(free)
    ensures Ascending(free)
  {
  }

  /** A block that is not on the list has a place in its order. */
  lemma GapExists(free: seq<Block>, b: int) returns (g: nat)
    requires Ascending(free) && forall i :: 0 <= i < |free| ==> free[i].start != b
    ensures Gap(free, g, b)
  {
    g := 0;
    while g < |free| && free[g].start < b
      invariant 0 <= g <= |free|
      invariant forall i :: 0 <= i < g ==> free[i].start < b
    {
      g := g + 1;
    }
  }

  /** The two exit tests of the search in `free` stop it at one position of the ring only. */
  lemma SearchStops(free: seq<Block>, next: seq<int>, g: nat, b: int, k: nat)
    requires Ascending(free) && Ring(free, next) && Gap(free, g, b) && k < |free|
    ensures var p := free[k].start;
            (p < b < next[p] || (p >= next[p] && (b > p || b < next[p]))) <==> k == Before(g, |free|)
  {
  }

  /** The units asked for by a request of `nbytes`: the payload rounded up, in word arithmetic, and a header. */
  function Units(nbytes: Word): int {
    (nbytes + HEADER - 1) % WORD / HEADER + 1
  }

  /** The payload is large enough and no larger than it must be, unless the rounding wraps; then a block without payload is
      asked for. */
  lemma UnitsFit(nbytes: Word)
    ensures nbytes <= HEADER * (Units(nbytes) - 1) <==> nbytes <= MAX - (HEADER - 1)
    ensures nbytes <= MAX - (HEADER - 1) ==> HEADER * (Units(nbytes) - 1) < nbytes + HEADER
    ensures nbytes > MAX - (HEADER - 1) ==> Units(nbytes) == 1
    ensures Units(nbytes) >= 1
  {
  }

  /** A block is too small in units exactly if its payload is. */
  lemma TooSmall(nbytes: Word, size: int)
    requires nbytes <= MAX - (HEADER - 1)
    ensures size < Units(nbytes) <==> HEADER * (size - 1) < nbytes
  {
    UnitsFit(nbytes);
  }

  const HEADER := 8
  const LIMIT := 0x3fff_ffff

  /** Every block is too small. */
  ghost predicate NoFit(free: seq<Block>, n: int) {
    forall i {:trigger free[i]} :: 0 <= i < |free| ==> free[i].size < n
  }

  /** No free block has so many bytes behind its header. */
  ghost predicate NoRoom(free: seq<Block>, nbytes: int) {
    forall i {:trigger free[i]} :: 0 <= i < |free| ==> HEADER * (free[i].size - 1) < nbytes
  }

  /** Behind the header there is room for the bytes, and less than a header more; for a request that is almost a word, where the
      rounding wraps, there is none. */
  predicate IsRoomFor(size: int, nbytes: Word) {
    if nbytes <= MAX - (HEADER - 1) then nbytes <= HEADER * (size - 1) < nbytes + HEADER else size == 1
  }

  lemma NoFitInBytes(free: seq<Block>, nbytes: Word)
    requires nbytes <= MAX - (HEADER - 1)
    ensures NoFit(free, Units(nbytes)) <==> NoRoom(free, nbytes)
  {
    forall i | 0 <= i < |free|
      ensures free[i].size < Units(nbytes) <==> HEADER * (free[i].size - 1) < nbytes
    {
      TooSmall(nbytes, free[i].size);
    }
  }

  /** The blocks before block `j`, going round from the block after `cur`, are too small. */
  ghost predicate Skipped(free: seq<Block>, cur: nat, j: nat, n: int)
    requires cur < |free| && j < |free|
  {
    forall i {:trigger free[i]} :: 0 <= i < |free| && Dist(i, cur, |free|) > Dist(j, cur, |free|) ==> free[i].size < n
  }

  /** Going round from the block after `cur`, block `j` is the first that is large enough. */
  ghost predicate FirstFit(free: seq<Block>, cur: nat, j: nat, n: int) {
    && j < |free| && free[j].size >= n
    && (cur < |free| ==> Skipped(free, cur, j, n))
  }

  lemma SkippedNext(free: seq<Block>, cur: nat, j: nat, n: int)
    requires cur < |free| && j < |free| && j != cur && Skipped(free, cur, j, n) && free[j].size < n
    ensures Skipped(free, cur, Succ(j, |free|), n)
  {
    DistStep(j, cur, |free|);
  }

  /** The search has come round to the block it started behind. */
  lemma SkippedAll(free: seq<Block>, cur: nat, n: int)
    requires cur < |free| && Skipped(free, cur, cur, n) && free[cur].size < n
    ensures NoFit(free, n)
  {
  }

  /** The block that the search ended at is still on the list, and where it was. */
  lemma StaysCurrent(free: seq<Block>, g: nat, b: Block)
    requires |free| >= 1 && b.size >= 1 && Gap(free, g, b.start) && !BelowOnlyBlock(free, b)
    ensures var r := Released(free, g, b);
            var c := if g > 0 then g - 1 else |r| - 1;
            0 <= c < |r| && r[c].start == free[Before(g, |free|)].start
  {
  }

  // ----- clients -----

  /** What a client asks for: memory, or to give back the `k`-th of the blocks it has. */
  datatype Request = Get(nbytes: Word) | Put(k: nat)

  /** The client has exactly the blocks that are handed out. */
  ghost predicate Holds(out: seq<int>, live: map<int, int>) {
    && (forall i, k {:trigger out[i], out[k]} :: 0 <= i < k < |out| ==> out[i] != out[k])
    && forall b {:trigger b in live} :: b in live <==> b + 1 in out
  }

  lemma HoldsMore(out: seq<int>, live: map<int, int>, b: int, n: int)
    requires Holds(out, live) && b !in live
    ensures Holds(out + [b + 1], live[b := n])
  {
    assert b + 1 !in out;
  }

  lemma HoldsLess(out: seq<int>, live: map<int, int>, k: nat)
    requires Holds(out, live) && k < |out|
    ensures out[k] - 1 in live && Holds(Without(out, k), live - {out[k] - 1})
  {
    var out' := Without(out, k);
    assert out[k] in out;
    forall i | 0 <= i < |out'|
      ensures out'[i] == out[if i < k then i else i + 1]
    {
    }
    forall b | b in live && b != out[k] - 1
      ensures b + 1 in out'
    {
      var i :| 0 <= i < |out| && out[i] == b + 1;
      assert out'[if i < k then i else i - 1] == b + 1;
    }
  }

  /** A block is handed out from the arena's start exactly if the block there goes whole; otherwise the step is allowed. */
  lemma GotBlock(s: State, j: nat, n: int, out: seq<int>)
    requires Sound(s) && Holds(out, s.live) && j < |s.free| && 1 <= n <= s.free[j].size
    ensures var b := TakenBlock(s.free, j, n).start;
            if b == 0 then
              s.free[0] == Block(0, n)
            else
              && !OnlyBlock(s.free, n) && Steps(s, [Op.Take(j, n)], AfterTake(s, j, n))
              && Sound(AfterTake(s, j, n)) && Holds(out + [b + 1], AfterTake(s, j, n).live)
  {
    var b := TakenBlock(s.free, j, n).start;
    assert Owns(s.own, s.free[j]);
    assert j > 0 ==> End(s.free[0]) < s.free[j].start;
    if b != 0 {
      AfterIsSound(s, Op.Take(j, n));
      TakeKeeps(s.free, s.live, s.own, j, n);
      HoldsMore(out, s.live, b, n);
    }
  }

  lemma GotMemory(s: State, s': State, j: nat, n: int, r: int, out: seq<int>)
    requires Sound(s) && Holds(out, s.live) && j < |s.free| && 1 <= n <= s.free[j].size && r == TakenBlock(s.free, j, n).start + 1
    requires s' == if OnlyBlock(s.free, n) then s else AfterTake(s, j, n)
    ensures r != 1 ==> Sound(s') && Holds(out + [r], s'.live) && Steps(s, [Op.Take(j, n)], s')
    ensures r == 1 ==> s.free[0] == Block(0, n)
  {
    GotBlock(s, j, n, out);
  }

  lemma GaveBlock(s: State, g: nat, out: seq<int>, k: nat)
    requires Sound(s) && Holds(out, s.live) && k < |out| && out[k] - 1 in s.live && Gap(s.free, g, out[k] - 1)
    ensures var s' := AfterRelease(s, g, out[k] - 1);
            Steps(s, [Op.Release(g, out[k] - 1)], s') && Sound(s') && Holds(Without(out, k), s'.live)
  {
    AfterIsSound(s, Op.Release(g, out[k] - 1));
    HoldsLess(out, s.live, k);
  }

  /** A block that is handed out lies above the block at the arena's start. */
  lemma AboveStart(s: State, b: int)
    requires Sound(s) && b in s.live
    ensures !BelowOnlyBlock(s.free, Block(b, s.live[b]))
  {
    assert Owns(s.own, Block(b, s.live[b]));
  }

  lemma RingNeighbours(free: seq<Block>, next: seq<int>, g: nat)
    requires Ring(free, next) && g <= |free|
    ensures var p, q := free[Before(g, |free|)].start, free[if g < |free| then g else 0].start;
            0 <= p < |next| && next[p] == q && 0 <= q < |next| && 0 <= next[q] < |next|
  {
    var c, d := Before(g, |free|), if g < |free| then g else 0;
    RingAt(free, next, c);
    RingAt(free, next, d);
    assert Succ(c, |free|) == d && 0 <= free[Succ(d, |free|)].start < |next|;
  }

  /** The two neighbours of a block that is given back touch it exactly if their headers say so. */
  lemma NeighbourSizes(free: seq<Block>, live: map<int, int>, own: seq<int>, size: seq<int>, g: nat, b: int)
    requires Tiled(free, live, own) && Sizes(free, live, size) && |own| == |size| && |free| >= 1 && b in live && Gap(free, g, b)
    ensures var p, q, k := free[Before(g, |free|)], free[if g < |free| then g else 0], Block(b, live[b]);
            && 0 <= p.start < |size| && size[p.start] == p.size && 0 <= b < |size| && size[b] == live[b]
            && (End(k) == q.start <==> JoinsUpper(free, g, k)) && (End(p) == b <==> JoinsLower(free, g, k))
  {
    var p, q := free[Before(g, |free|)], free[if g < |free| then g else 0];
    assert p.size >= 1 && live[b] >= 1;
    assert g == |free| ==> q.start < b;
    assert g == 0 ==> b < p.start;
  }

  // ----- the heap -----

  /** The arena's header cells by unit, and the pointer into the ring; `free`, `live` and `own` say what they mean. */
  class Heap {
    const next: array<int>
    const size: array<int>
    var freep: int
    ghost var s: State
    ghost var cur: nat

    /** Until the first request the free list is there in intention only. */
    ghost predicate Valid()
      reads this, next, size
    {
      && next != size && next.Length == size.Length == |s.own|
      && |s.free| >= 1 && Tiled(s.free, s.live, s.own)
      && if freep == NIL then
           s.free == [Block(0, next.Length)] && s.live == map[] && cur == 0
         else
           Linked()
    }

    ghost predicate Linked()
      reads this, next, size
    {
      && next.Length == size.Length
      && Ring(s.free, next[..]) && Sizes(s.free, s.live, size[..]) && cur < |s.free| && freep == s.free[cur].start
    }

    /** The arena runs from one header past the end of the program to a fixed limit. */
    constructor (elfEnd: Word)
      requires elfEnd + 2 * HEADER <= LIMIT
      ensures Valid() && fresh(next) && fresh(size)
      ensures s.free == [Block(0, (0x3fff_ffff - elfEnd - 8) / 8)] && s.live == map[]
      ensures next.Length == (LIMIT - elfEnd - HEADER) / HEADER && Sound(s)
    {
      var n := (LIMIT - elfEnd - HEADER) / HEADER;
      next, size := new int[n], new int[n];
      freep := NIL;
      s, cur := State([Block(0, n)], map[], seq(n, _ => 0)), 0;
      new;
      forall u | 0 <= u < |s.own|
        ensures Placed(s.free, s.live, s.own, u)
      {
        assert s.free[0].start <= u < End(s.free[0]);
      }
    }

    /** The first request lays out a single free block over the whole arena. */
    method Start()
      requires Valid()
      modifies this`freep, next, size
      ensures Valid() && freep != NIL && Linked() && Ascending(s.free)
    {
      AllAscend(s.free);
      if freep == NIL {
        assert s.free[0].size == next.Length;
        freep := 0;
        next[0], size[0] := 0, next.Length;
      }
    }

    /** The header cells change; what is free and live is left to the caller. */
    method Detach(prevp: int, p: int, nunits: int) returns (q: int)
      requires next != size && next.Length == size.Length && 0 <= prevp < next.Length
      requires 0 <= p < size.Length && p + size[p] <= size.Length && 1 <= nunits <= size[p]
      modifies this`freep, next, size
      ensures q == p + old(size[p]) - nunits && freep == prevp && q < size.Length && size[q] == nunits
      ensures next[..] == TakenNext(old(next[..]), prevp, p, old(size[p]) == nunits)
      ensures size[..] == TakenSize(old(size[..]), p, nunits)
    {
      q := p;
      if size[p] == nunits {
        next[prevp] := next[p];
      } else {
        size[p] := size[p] - nunits;
        q := p + size[p];
        size[q] := nunits;
      }
      freep := prevp;
    }

    /** Hands out the tail of the block at `p`, or the whole block; the result is the header of what is handed out. */
    method Take(prevp: int, p: int, nunits: int, ghost j: nat) returns (q: int)
      requires Valid() && freep != NIL && j < |s.free| && p == s.free[j].start && prevp == s.free[Pred(j, |s.free|)].start
      requires 1 <= nunits <= s.free[j].size
      modifies this, next, size
      ensures Valid() && freep != NIL
      ensures q == TakenBlock(old(s).free, j, nunits).start && 0 <= q < size.Length && size[q] == nunits && freep == prevp
      ensures s == if OnlyBlock(old(s).free, nunits) then old(s) else AfterTake(old(s), j, nunits)
    {
      TakeReady(j, nunits);
      q := Detach(prevp, p, nunits);
      if !OnlyBlock(s.free, nunits) {
        RecordTaken(nunits, j);
      } else {
        cur := 0;
      }
    }

    /** What the header cells mean once a block is detached. */
    ghost method RecordTaken(nunits: int, j: nat)
      requires |s.free| >= 1 && j < |s.free| && 1 <= nunits <= s.free[j].size && next != size && next.Length == size.Length == |s.own|
      requires Tiled(s.free, s.live, s.own) && freep == s.free[Pred(j, |s.free|)].start && !OnlyBlock(s.free, nunits)
      requires Ring(Taken(s.free, j, nunits), next[..])
      requires Sizes(Taken(s.free, j, nunits), s.live[TakenBlock(s.free, j, nunits).start := nunits], size[..])
      modifies this`cur, this`s
      ensures Valid()
      ensures s == AfterTake(old(s), j, nunits)
    {
      TakeKeeps(s.free, s.live, s.own, j, nunits);
      TakenList(s.free, j, nunits);
      cur := if s.free[j].size == nunits && j != 0 then j - 1 else Pred(j, |Taken(s.free, j, nunits)|);
      s := AfterTake(s, j, nunits);
    }

    /** Before a block is taken: what the header cells will mean afterwards. */
    lemma TakeReady(j: nat, n: int)
      requires Valid() && freep != NIL && j < |s.free| && 1 <= n <= s.free[j].size
      ensures var p, prevp := s.free[j].start, s.free[Pred(j, |s.free|)].start;
              && 0 <= p < size.Length && 0 <= prevp < next.Length && size[p] == s.free[j].size && p + size[p] <= size.Length
              && var next', size' := TakenNext(next[..], prevp, p, size[p] == n), TakenSize(size[..], p, n);
              if OnlyBlock(s.free, n) then
                next' == next[..] && size' == size[..]
              else
                Ring(Taken(s.free, j, n), next') && Sizes(Taken(s.free, j, n), s.live[TakenBlock(s.free, j, n).start := n], size')
    {
      assert Owns(s.own, s.free[j]);
      AllAscend(s.free);
      RingAt(s.free, next[..], j);
      if !OnlyBlock(s.free, n) {
        RingTaken(s.free, next[..], j, n);
        SizesTaken(s.free, s.live, s.own, size[..], j, n);
      }
    }

    /** Goes round the ring from the block after `freep`, to the first one that is large enough. */
    method FindFit(nunits: int) returns (prevp: int, p: int, ghost j: nat)
      requires Linked() && Ascending(s.free)
      ensures j < |s.free|
      ensures p == NIL ==> NoFit(s.free, nunits)
      ensures p != NIL ==> p == s.free[j].start && prevp == s.free[Pred(j, |s.free|)].start && FirstFit(s.free, cur, j, nunits)
    {
      prevp := freep;
      RingAt(s.free, next[..], cur);
      p := next[prevp];
      j := Succ(cur, |s.free|);
      while size[p] < nunits
        invariant j < |s.free| && p == s.free[j].start && prevp == s.free[Pred(j, |s.free|)].start
        invariant Skipped(s.free, cur, j, nunits)
        decreases Dist(j, cur, |s.free|)
      {
        if p == freep {
          SkippedAll(s.free, cur, nunits);
          return prevp, NIL, j;
        }
        prevp := p;
        RingAt(s.free, next[..], j);
        SkippedNext(s.free, cur, j, nunits);
        DistStep(j, cur, |s.free|);
        p := next[p];
        j := Succ(j, |s.free|);
      }
    }

    /** Next fit. The block found is the first that is large enough, going round the ring from the block after `freep`;
        its tail is handed out. NULL is returned exactly when every free block is too small. When the ring consists of
        one block and that block fits exactly, it is handed out and stays on the ring. */
    method Alloc(nbytes: Word) returns (r: int, ghost j: nat)
      requires Valid()
      modifies this, next, size
      ensures Valid()
      ensures r == NIL <==> NoFit(old(s).free, Units(nbytes))
      ensures nbytes <= MAX - (HEADER - 1) ==>
                (r == NIL <==> NoRoom(old(s).free, nbytes))
      ensures r != NIL ==> 1 <= r <= size.Length && IsRoomFor(size[r - 1], nbytes) && j < |old(s).free|
      ensures r != NIL ==> r - 1 + size[r - 1] == End(old(s).free[j]) && freep == old(s).free[Pred(j, |old(s).free|)].start
      ensures r == NIL ==> s == old(s)
      ensures r != NIL ==> 1 <= Units(nbytes) && FirstFit(old(s).free, old(cur), j, Units(nbytes))
      ensures r != NIL ==> r == TakenBlock(old(s).free, j, Units(nbytes)).start + 1
      ensures r != NIL ==> s == if OnlyBlock(old(s).free, Units(nbytes)) then old(s) else AfterTake(old(s), j, Units(nbytes))
    {
      UnitsFit(nbytes);
      if nbytes <= MAX - (HEADER - 1) {
        NoFitInBytes(s.free, nbytes);
      }
      Start();
      r, j := Fetch(Units(nbytes));
    }

    method Fetch(nunits: int) returns (r: int, ghost j: nat)
      requires Valid() && freep != NIL && Linked() && Ascending(s.free) && nunits >= 1
      modifies this, next, size
      ensures Valid()
      ensures r == NIL <==> NoFit(old(s).free, nunits)
      ensures r == NIL ==> s == old(s)
      ensures r != NIL ==> FirstFit(old(s).free, old(cur), j, nunits)
      ensures r != NIL ==> r == TakenBlock(old(s).free, j, nunits).start + 1 && 1 <= r <= size.Length && size[r - 1] == nunits
      ensures r != NIL ==> freep == old(s).free[Pred(j, |old(s).free|)].start
      ensures r != NIL ==> s == if OnlyBlock(old(s).free, nunits) then old(s) else AfterTake(old(s), j, nunits)
    {
      var prevp, p;
      prevp, p, j := FindFit(nunits);
      if p == NIL {
        return NIL, j;
      }
      r := Take(prevp, p, nunits, j);
      r := r + 1;
    }

    /** Gives a block back, joined with the free blocks it touches. When the ring consists of one block and the block
        given back ends where that one starts, the ring keeps the block that was joined. */
    method Free(ap: int) returns (ghost g: nat)
      requires Valid() && ap - 1 in s.live
      modifies this, next, size
      ensures Gap(old(s).free, g, ap - 1)
      ensures var b := Block(ap - 1, old(s).live[ap - 1]);
              if BelowOnlyBlock(old(s).free, b) then
                var q := old(s).free[0];
                freep == q.start && next[q.start] == b.start && next[b.start] == q.start && size[b.start] == b.size + q.size
              else
                Valid() && s == AfterRelease(old(s), g, b.start)
    {
      var bp := ap - 1;
      AllAscend(s.free);
      g := GapExists(s.free, bp);
      var p := Search(bp, g);
      LinkIn(p, bp, g);
    }

    /** Links the block at `bp` in after `p`, or into the neighbours it touches. */
    method LinkIn(p: int, bp: int, ghost g: nat)
      requires Valid() && freep != NIL && bp in s.live && Gap(s.free, g, bp) && p == s.free[Before(g, |s.free|)].start
      modifies this, next, size
      ensures var b := Block(bp, old(s).live[bp]);
              if BelowOnlyBlock(old(s).free, b) then
                var q := old(s).free[0];
                freep == q.start && next[q.start] == b.start && next[b.start] == q.start && size[b.start] == b.size + q.size
              else
                Valid() && s == AfterRelease(old(s), g, b.start)
    {
      ReleaseReady(g, bp);
      Relink(p, bp);
      if !BelowOnlyBlock(s.free, Block(bp, s.live[bp])) {
        RecordReleased(bp, g);
      }
    }

    /** A client's request for memory. One that is answered with the start of the arena took the block there whole; any
        other is an allowed step, or finds no block. */
    method ServeGet(nbytes: Word, out: seq<int>) returns (r: int, out': seq<int>, ghost ops: seq<Op>)
      requires Valid() && Sound(s) && Holds(out, s.live)
      modifies this, next, size
      ensures Valid()
      ensures r != 1 ==> Sound(s) && Holds(out', s.live) && Steps(old(s), ops, s) && (ops == [] <==> r == NIL)
      ensures r == 1 ==> old(s).free[0] == Block(0, Units(nbytes))
    {
      ghost var j;
      r, j := Alloc(nbytes);
      if r == NIL {
        return r, out, [];
      }
      GotMemory(old(s), s, j, Units(nbytes), r, out);
      return r, out + [r], [Op.Take(j, Units(nbytes))];
    }

    /** A client gives a block back. */
    method ServePut(k: nat, out: seq<int>) returns (out': seq<int>, ghost ops: seq<Op>)
      requires Valid() && Sound(s) && k < |out| && Holds(out, s.live)
      modifies this, next, size
      ensures Valid() && Sound(s) && Holds(out', s.live) && Steps(old(s), ops, s) && ops != []
    {
      HoldsLess(out, s.live, k);
      AboveStart(s, out[k] - 1);
      ghost var g := Free(out[k]);
      GaveBlock(old(s), g, out, k);
      return Without(out, k), [Op.Release(g, out[k] - 1)];
    }

    /** One request of a client; it is not `ok` when it took the block at the arena's start whole. */
    method ServeOne(request: Request, out: seq<int>) returns (ok: bool, out': seq<int>, ghost ops: seq<Op>)
      requires Valid() && Sound(s) && Holds(out, s.live)
      modifies this, next, size
      ensures Valid()
      ensures ok ==> Sound(s) && Holds(out', s.live) && Steps(old(s), ops, s)
      ensures !ok ==> request.Get? && old(s).free[0] == Block(0, Units(request.nbytes))
    {
      match request {
        case Get(nbytes) =>
          var r;
          r, out', ops := ServeGet(nbytes, out);
          ok := r != 1;
        case Put(k) =>
          ok, out', ops := true, out, [];
          if k < |out| {
            out', ops := ServePut(k, out);
          }
      }
    }

    /** Whatever a client asks for and gives back, the heap goes through a run, until a request takes the block at the arena's
        start whole. `n` requests are served. */
    method Serve(requests: seq<Request>) returns (out: seq<int>, n: nat, ghost states: seq<State>, ghost ops: seq<Op>)
      requires Valid() && Sound(s) && s.live == map[]
      modifies this, next, size
      ensures Valid() && Run(states, ops) && states[0] == old(s) && n <= |requests|
      ensures n == |requests| ==> RunFrom(old(s), states, ops, s) && Holds(out, s.live)
      ensures n < |requests| ==>
                requests[n].Get? && |states[|ops|].free| >= 1 && states[|ops|].free[0] == Block(0, Units(requests[n].nbytes))
    {
      out, n, states, ops := [], 0, [s], [];
      while n < |requests|
        invariant n <= |requests| && Valid() && Sound(s) && Holds(out, s.live)
        invariant RunFrom(old(s), states, ops, s)
      {
        ghost var was := s;
        var ok;
        ghost var step;
        ok, out, step := ServeOne(requests[n], out);
        if !ok {
          return;
        }
        RunExtended(old(s), states, ops, was, step, s);
        states, ops, n := if step == [] then states else states + [s], ops + step, n + 1;
      }
    }

    /** A request followed by giving the block back leaves the same free blocks, unless the only free block went whole. */
    method AllocFree(nbytes: Word) returns (r: int)
      requires Valid() && !OnlyBlock(s.free, Units(nbytes))
      modifies this, next, size
      ensures Valid() && s.free == old(s.free) && s.live == old(s.live)
    {
      ghost var j;
      r, j := Alloc(nbytes);
      if r != NIL {
        GiveBack(r, old(s), j, Units(nbytes));
      }
    }

    /** Gives back what was just taken. */
    method GiveBack(r: int, ghost was: State, ghost j: nat, ghost n: int)
      requires Valid() && |was.free| >= 1 && Tiled(was.free, was.live, was.own) && j < |was.free| && 1 <= n <= was.free[j].size
      requires !OnlyBlock(was.free, n) && s == AfterTake(was, j, n) && r == TakenBlock(was.free, j, n).start + 1
      modifies this, next, size
      ensures Valid() && s.free == was.free && s.live == was.live
    {
      TakeKeeps(was.free, was.live, was.own, j, n);
      ghost var g := Free(r);
      RoundTrip(was, j, n, g);
    }

    /** When the only free block is taken whole, the next request of that size gets the same memory. */
    method AllocTwice(nbytes: Word) returns (r1: int, r2: int)
      requires Valid() && OnlyBlock(s.free, Units(nbytes))
      modifies this, next, size
      ensures r1 == r2 != NIL
    {
      ghost var j;
      r1, j := Alloc(nbytes);
      r2, j := Alloc(nbytes);
    }

    /** The cells of a block that was handed out are the client's, but for its header. */
    method WritePayload(b: int, u: int, link: int, count: int)
      requires Valid() && b in s.live && b < u < b + s.live[b]
      modifies next, size
      ensures Valid()
    {
      assert Owns(s.own, Block(b, s.live[b]));
      LiveIsDisjoint(s.free, s.live, s.own, b);
      ghost var next0, size0 := next[..], size[..];
      next[u], size[u] := link, count;
      assert next[..] == next0[u := link] && size[..] == size0[u := count];
      StrangeCell(s.free, next0, u, link);
    }

    /** The place of a block among the free ones: the last below it, or the highest if it is below or above all. */
    method Search(bp: int, ghost g: nat) returns (p: int)
      requires Linked() && Ascending(s.free) && Gap(s.free, g, bp)
      ensures p == s.free[Before(g, |s.free|)].start
    {
      ghost var k: nat := cur;
      p := freep;
      SearchStops(s.free, next[..], g, bp, k);
      while !(bp > p && bp < next[p])
        invariant k < |s.free| && p == s.free[k].start
        invariant (p < bp < next[p] || (p >= next[p] && (bp > p || bp < next[p]))) <==> k == Before(g, |s.free|)
        decreases Dist(k, Before(g, |s.free|), |s.free|)
      {
        if p >= next[p] && (bp > p || bp < next[p]) {
          break;
        }
        RingAt(s.free, next[..], k);
        p := next[p];
        k := Succ(k, |s.free|);
        SearchStops(s.free, next[..], g, bp, k);
      }
    }

    /** The header cells change; what is free and live is left to the caller. */
    method Relink(p: int, bp: int)
      requires 0 <= p < size.Length == next.Length && 0 <= bp < size.Length && p != bp && next != size
      requires 0 <= next[p] < size.Length && next[p] != bp && 0 <= next[next[p]] < size.Length
      requires bp + size[bp] == next[p] && p + size[p] == bp ==> next[p] != p
      modifies this`freep, next, size
      ensures freep == p
      ensures var q, upper, lower := old(next[p]), bp + old(size[bp]) == old(next[p]), p + old(size[p]) == bp;
              && next[..] == FreedNext(old(next[..]), p, bp, upper, lower)
              && size[..] == FreedSize(old(size[..]), p, bp, q, upper, lower)
    {
      if bp + size[bp] == next[p] {
        size[bp] := size[bp] + size[next[p]];
        next[bp] := next[next[p]];
      } else {
        next[bp] := next[p];
      }
      if p + size[p] == bp {
        size[p] := size[p] + size[bp];
        next[p] := next[bp];
      } else {
        next[p] := bp;
      }
      freep := p;
    }

    /** What the header cells mean once a block is linked in. */
    ghost method RecordReleased(bp: int, g: nat)
      requires next != size && next.Length == size.Length == |s.own| && |s.free| >= 1 && Tiled(s.free, s.live, s.own)
      requires bp in s.live && Gap(s.free, g, bp) && freep == s.free[Before(g, |s.free|)].start
      requires !BelowOnlyBlock(s.free, Block(bp, s.live[bp]))
      requires Ring(Released(s.free, g, Block(bp, s.live[bp])), next[..])
      requires Sizes(Released(s.free, g, Block(bp, s.live[bp])), s.live - {bp}, size[..])
      modifies this`cur, this`s
      ensures Valid()
      ensures s == AfterRelease(old(s), g, bp)
    {
      ghost var r := AfterRelease(s, g, bp);
      ReleaseKeeps(s.free, s.live, s.own, g, bp);
      StaysCurrent(s.free, g, Block(bp, s.live[bp]));
      cur := if g > 0 then g - 1 else |r.free| - 1;
      s := r;
    }

    /** Before a block is linked in: what the header cells will mean afterwards. */
    lemma ReleaseReady(g: nat, bp: int)
      requires Valid() && freep != NIL && bp in s.live && Gap(s.free, g, bp)
      ensures var p, b := s.free[Before(g, |s.free|)].start, Block(bp, s.live[bp]);
              && 0 <= p < size.Length && p != bp && 0 <= bp < size.Length && size[bp] == s.live[bp]
              && 0 <= next[p] < size.Length && next[p] != bp && 0 <= next[next[p]] < size.Length
              && (bp + size[bp] == next[p] <==> JoinsUpper(s.free, g, b))
              && (bp + size[bp] == next[p] ==> next[p] == s.free[if g < |s.free| then g else 0].start && !(p + size[p] == bp && next[p] == p))
              && if BelowOnlyBlock(s.free, b) then
                   p + size[p] != bp && next[p] == p
                 else
                   && Ring(Released(s.free, g, b), FreedNext(next[..], p, bp, bp + size[bp] == next[p], p + size[p] == bp))
                   && Sizes(Released(s.free, g, b), s.live - {bp},
                            FreedSize(size[..], p, bp, next[p], bp + size[bp] == next[p], p + size[p] == bp))
    {
      JoinTests(g, bp);
      var b := Block(bp, s.live[bp]);
      if !BelowOnlyBlock(s.free, b) {
        RingReleased(s.free, next[..], g, b);
        SizesReleased(s.free, s.live, s.own, size[..], g, bp);
      }
    }

    /** What the tests on header cells find out about the neighbours. */
    lemma JoinTests(g: nat, bp: int)
      requires Valid() && freep != NIL && bp in s.live && Gap(s.free, g, bp)
      ensures var p, b := s.free[Before(g, |s.free|)].start, Block(bp, s.live[bp]);
              && 0 <= p < size.Length && p != bp
              && 0 <= bp < size.Length && size[bp] == s.live[bp]
              && next[p] == s.free[if g < |s.free| then g else 0].start
              && 0 <= next[p] < size.Length && next[p] != bp
              && 0 <= next[next[p]] < size.Length
              && (bp + size[bp] == next[p] <==> JoinsUpper(s.free, g, b))
              && (p + size[p] == bp <==> JoinsLower(s.free, g, b))
    {
      RingNeighbours(s.free, next[..], g);
      FreeHeaders(s.free, s.live, s.own, bp);
      NeighbourSizes(s.free, s.live, s.own, size[..], g, bp);
    }
  }

  // ----- the ring of one block -----

  /** A fresh arena of five units hands all of it out, twice. */
  method SameMemoryTwice() returns (r1: int, r2: int)
    ensures r1 == r2 != NIL
  {
    var heap := new Heap(LIMIT - 48);
    r1, r2 := heap.AllocTwice(32);
  }

  /** One unit is taken from a ring of one block. */
  method TakeUnit(heap: Heap, k: nat)
    requires heap.Valid() && k >= 2 && heap.s.free == [Block(0, k)]
    modifies heap, heap.next, heap.size
    ensures heap.Valid() && heap.s.free == [Block(0, k - 1)] && heap.s.live == old(heap.s.live)[k - 1 := 1]
  {
    var r;
    ghost var j;
    r, j := heap.Alloc(0);
    assert Taken([Block(0, k)], 0, 1) == [Block(0, k - 1)];
  }

  /** An arena of five units, of which three are handed out one by one. */
  method TakeThree() returns (heap: Heap)
    ensures heap.Valid() && fresh(heap) && fresh(heap.next) && fresh(heap.size) && heap.next.Length == heap.size.Length == 5
    ensures heap.s.free == [Block(0, 2)] && heap.s.live == map[4 := 1, 3 := 1, 2 := 1]
  {
    heap := new Heap(LIMIT - 48);
    TakeUnit(heap, 5);
    TakeUnit(heap, 4);
    TakeUnit(heap, 3);
  }

  lemma SecondFragment(g: nat)
    requires Gap([Block(0, 2)], g, 4)
    ensures Released([Block(0, 2)], g, Block(4, 1)) == [Block(0, 2), Block(4, 1)]
  {
    assert [Block(0, 2)][0].start < 4;
  }

  /** The first of the blocks is given back. */
  method GiveFirst(heap: Heap)
    requires heap.Valid() && heap.s.free == [Block(0, 2)] && heap.s.live == map[4 := 1, 3 := 1, 2 := 1]
    modifies heap, heap.next, heap.size
    ensures heap.Valid() && heap.s.free == [Block(0, 2), Block(4, 1)] && heap.s.live == map[3 := 1, 2 := 1]
  {
    ghost var g := heap.Free(5);
    SecondFragment(g);
  }

  lemma StartTaken(s: State, n: int)
    requires s.free == [Block(0, 2), Block(4, 1)] && 3 in s.live && s.live[3] == 1 && n == 2
    ensures !NoFit(s.free, n) && !OnlyBlock(s.free, n)
    ensures forall j: nat {:trigger AfterTake(s, j, n)} :: j < 2 && s.free[j].size >= n ==>
              AfterTake(s, j, n).free == [Block(4, 1)] && 3 in AfterTake(s, j, n).live && AfterTake(s, j, n).live[3] == 1
  {
    assert s.free[0].size == 2 && s.free[1].size == 1;
    assert Taken(s.free, 0, n) == [Block(4, 1)];
  }

  /** The two units at the arena's start are taken whole. */
  method TakeStart(heap: Heap)
    requires heap.Valid() && heap.s.free == [Block(0, 2), Block(4, 1)] && heap.s.live == map[3 := 1, 2 := 1]
    modifies heap, heap.next, heap.size
    ensures heap.Valid() && heap.s.free == [Block(4, 1)] && 3 in heap.s.live && heap.s.live[3] == 1
  {
    assert Units(8) == 2;
    StartTaken(heap.s, Units(8));
    var r;
    ghost var j;
    r, j := heap.Alloc(8);
  }

  /** Then one free block is left, and the second block ends where it starts. Given back, it is joined with the free block,
      and both stay on the ring. */
  method BothOnRing() returns (heap: Heap)
    ensures heap.next.Length == heap.size.Length == 5
    ensures heap.freep == 4 && heap.next[4] == 3 && heap.next[3] == 4 && heap.size[3] == 2
  {
    heap := TakeThree();
    GiveFirst(heap);
    TakeStart(heap);
    ghost var g := heap.Free(4);
  }
}
