/** The blocks of the heap's arena, independently of how the free list is threaded through it.

    The arena is a row of units. Free blocks are listed by ascending address; allocated blocks are kept as a map from
    start to size; `own` tells for each unit the start of the block it belongs to. */
module Arena {
  import opened Sequences

  /** `size` units from `start` on, the first of which is the block's header. */
  datatype Block = Block(start: int, size: int)

  function End(b: Block): int {
    b.start + b.size
  }

  /** Free blocks ascend, are not empty, and do not touch. */
  ghost predicate FreeList(free: seq<Block>) {
    && (forall i {:trigger free[i]} :: 0 <= i < |free| ==> free[i].size >= 1)
    && (forall i, j {:trigger free[i], free[j]} :: 0 <= i < j < |free| ==> End(free[i]) < free[j].start)
  }

  /** Every unit of the block belongs to it. */
  ghost predicate Owns(own: seq<int>, b: Block) {
    0 <= b.start && End(b) <= |own| && forall u {:trigger own[u]} :: b.start <= u < End(b) ==> own[u] == b.start
  }

  /** Unit `u` belongs to a free block, or to an allocated one. */
  ghost predicate Placed(free: seq<Block>, live: map<int, int>, own: seq<int>, u: int)
    requires 0 <= u < |own|
  {
    || (exists i :: 0 <= i < |free| && free[i].start <= u < End(free[i]))
    || (own[u] in live && own[u] <= u < own[u] + live[own[u]])
  }

  /** Free and allocated blocks partition the arena. */
  ghost predicate Tiled(free: seq<Block>, live: map<int, int>, own: seq<int>) {
    && FreeList(free)
    && (forall i {:trigger free[i]} :: 0 <= i < |free| ==> Owns(own, free[i]) && free[i].start !in live)
    && (forall b {:trigger live[b]} {:trigger b in live} :: b in live ==> live[b] >= 1 && Owns(own, Block(b, live[b])))
    && (forall u :: 0 <= u < |own| ==> Placed(free, live, own, u))
  }

  // ----- what the partition means -----

  lemma TwoBlocks(own: seq<int>, b: Block, c: Block)
    requires b.size >= 1 && c.size >= 1 && Owns(own, b) && Owns(own, c) && b.start != c.start
    ensures End(b) <= c.start || End(c) <= b.start
  {
    var u := if b.start < c.start then c.start else b.start;
    assert b.start <= u < End(b) ==> own[u] == b.start;
    assert c.start <= u < End(c) ==> own[u] == c.start;
  }

  /** A block that was handed out overlaps no free block and no other block that was handed out. */
  lemma LiveIsDisjoint(free: seq<Block>, live: map<int, int>, own: seq<int>, b: int)
    requires Tiled(free, live, own) && b in live
    ensures forall i :: 0 <= i < |free| ==> End(free[i]) <= b || b + live[b] <= free[i].start
    ensures forall c :: c in live && c != b ==> c + live[c] <= b || b + live[b] <= c
  {
    forall i | 0 <= i < |free|
      ensures End(free[i]) <= b || b + live[b] <= free[i].start
    {
      TwoBlocks(own, free[i], Block(b, live[b]));
    }
    forall c | c in live && c != b
      ensures c + live[c] <= b || b + live[b] <= c
    {
      TwoBlocks(own, Block(c, live[c]), Block(b, live[b]));
    }
  }

  // ----- taking a block -----

  /** `n` units from the tail of the `j`-th free block. */
  function TakenBlock(free: seq<Block>, j: nat, n: int): Block
    requires j < |free| && n <= free[j].size
  {
    Block(End(free[j]) - n, n)
  }

  /** The free list after taking `n` units from the `j`-th block: it shrinks, or it goes when nothing is left. */
  function Taken(free: seq<Block>, j: nat, n: int): seq<Block>
    requires j < |free| && n <= free[j].size
  {
    if free[j].size == n then Without(free, j) else free[j := Block(free[j].start, free[j].size - n)]
  }

  /** All units of `b` now belong to it. */
  function Painted(own: seq<int>, b: Block): (r: seq<int>)
    ensures |r| == |own|
    ensures forall u {:trigger r[u]} :: 0 <= u < |r| ==> r[u] == if b.start <= u < End(b) then b.start else own[u]
  {
    seq(|own|, u requires 0 <= u < |own| => if b.start <= u < End(b) then b.start else own[u])
  }

  /** Where the elements of the new list come from. */
  lemma TakenAt(free: seq<Block>, j: nat, n: int, i: nat)
    requires j < |free| && n <= free[j].size && i < |Taken(free, j, n)|
    ensures var k := if free[j].size == n && i >= j then i + 1 else i;
            k < |free| && Taken(free, j, n)[i] == if k == j then Block(free[j].start, free[j].size - n) else free[k]
  {
  }

  lemma TakenList(free: seq<Block>, j: nat, n: int)
    requires FreeList(free) && j < |free| && 1 <= n <= free[j].size
    ensures FreeList(Taken(free, j, n))
    ensures forall i {:trigger Taken(free, j, n)[i]} :: 0 <= i < |Taken(free, j, n)| ==>
              var k := if free[j].size == n && i >= j then i + 1 else i;
              k < |free| && Taken(free, j, n)[i] == if k == j then Block(free[j].start, free[j].size - n) else free[k]
  {
    var r := Taken(free, j, n);
    forall i | 0 <= i < |r|
      ensures var k := if free[j].size == n && i >= j then i + 1 else i;
              k < |free| && r[i].size >= 1 && r[i] == if k == j then Block(free[j].start, free[j].size - n) else free[k]
    {
      TakenAt(free, j, n, i);
    }
    forall i, l | 0 <= i < l < |r|
      ensures End(r[i]) < r[l].start
    {
      var x, y := if free[j].size == n && i >= j then i + 1 else i, if free[j].size == n && l >= j then l + 1 else l;
      assert End(r[i]) <= End(free[x]) < free[y].start == r[l].start;
    }
  }

  /** Taking a block keeps the arena partitioned. */
  lemma TakeKeeps(free: seq<Block>, live: map<int, int>, own: seq<int>, j: nat, n: int)
    requires Tiled(free, live, own) && j < |free| && 1 <= n <= free[j].size
    ensures var b := TakenBlock(free, j, n);
            b.start !in live && Tiled(Taken(free, j, n), live[b.start := n], Painted(own, b))
  {
    var b := TakenBlock(free, j, n);
    var free', live', own' := Taken(free, j, n), live[b.start := n], Painted(own, b);
    TakenList(free, j, n);
    assert own[b.start] == free[j].start;
    forall i | 0 <= i < |free'|
      ensures Owns(own', free'[i]) && free'[i].start !in live'
    {
      var k := if free[j].size == n && i >= j then i + 1 else i;
      assert Owns(own, free[k]);
      assert k != j ==> End(free[k]) <= free[j].start || End(free[j]) <= free[k].start;
    }
    forall c | c in live'
      ensures live'[c] >= 1 && Owns(own', Block(c, live'[c]))
    {
      if c != b.start {
        TwoBlocks(own, free[j], Block(c, live[c]));
      }
    }
    forall u | 0 <= u < |own'|
      ensures Placed(free', live', own', u)
    {
      TakePlaces(free, live, own, j, n, u);
    }
  }

  lemma TakePlaces(free: seq<Block>, live: map<int, int>, own: seq<int>, j: nat, n: nat, u: int)
    requires FreeList(free) && j < |free| && 1 <= n <= free[j].size && 0 <= u < |own| && Placed(free, live, own, u)
    ensures var b := TakenBlock(free, j, n);
            Placed(Taken(free, j, n), live[b.start := n], Painted(own, b), u) || own[u] == b.start
  {
    var b := TakenBlock(free, j, n);
    var free' := Taken(free, j, n);
    TakenList(free, j, n);
    if b.start <= u < End(b) {
      assert Painted(own, b)[u] == b.start;
    } else if i :| 0 <= i < |free| && free[i].start <= u < End(free[i]) {
      var k := if free[j].size == n && i > j then i - 1 else i;
      assert free'[k].start <= u < End(free'[k]);
    }
  }

  // ----- giving a block back -----

  /** Position `g` is where a block starting at `start` belongs. */
  ghost predicate Gap(free: seq<Block>, g: int, start: int) {
    && 0 <= g <= |free|
    && (forall i :: 0 <= i < g ==> free[i].start < start)
    && (forall i :: g <= i < |free| ==> start < free[i].start)
  }

  predicate JoinsUpper(free: seq<Block>, g: nat, b: Block)
    requires g <= |free|
  {
    g < |free| && End(b) == free[g].start
  }

  predicate JoinsLower(free: seq<Block>, g: nat, b: Block)
    requires g <= |free|
  {
    g > 0 && End(free[g - 1]) == b.start
  }

  /** `b` joined with the free neighbours it touches. */
  function Merged(free: seq<Block>, g: nat, b: Block): Block
    requires g <= |free|
  {
    var start := if JoinsLower(free, g, b) then free[g - 1].start else b.start;
    var end := if JoinsUpper(free, g, b) then End(free[g]) else End(b);
    Block(start, end - start)
  }

  /** The free list with `b` put at position `g` and joined with the neighbours it touches. */
  function Released(free: seq<Block>, g: nat, b: Block): seq<Block>
    requires g <= |free|
  {
    Splice(free, if JoinsLower(free, g, b) then g - 1 else g, if JoinsUpper(free, g, b) then g + 1 else g, [Merged(free, g, b)])
  }

  /** Where the elements of the new list come from. */
  lemma ReleasedAt(free: seq<Block>, g: nat, b: Block, i: nat)
    requires g <= |free| && i < |Released(free, g, b)|
    ensures var d := if JoinsLower(free, g, b) then g - 1 else g;
            var u := if JoinsUpper(free, g, b) then g + 1 else g;
            Released(free, g, b)[i] == if i < d then free[i] else if i == d then Merged(free, g, b) else free[i - d - 1 + u]
  {
  }

  lemma ReleasedList(free: seq<Block>, g: nat, b: Block)
    requires FreeList(free) && b.size >= 1 && Gap(free, g, b.start)
    requires forall i :: 0 <= i < |free| ==> End(free[i]) <= b.start || End(b) <= free[i].start
    ensures FreeList(Released(free, g, b))
  {
    var r := Released(free, g, b);
    var d := if JoinsLower(free, g, b) then g - 1 else g;
    var u := if JoinsUpper(free, g, b) then g + 1 else g;
    forall i, j | 0 <= i < j < |r|
      ensures End(r[i]) < r[j].start
    {
      ReleasedAt(free, g, b, i);
      ReleasedAt(free, g, b, j);
    }
    forall i | 0 <= i < |r|
      ensures r[i].size >= 1
    {
      ReleasedAt(free, g, b, i);
    }
  }

  /** A free block that is not joined with `b` is still on the list. */
  lemma StillListed(free: seq<Block>, g: nat, b: Block, i: nat) returns (x: nat)
    requires g <= |free| && i < |free| && !(JoinsLower(free, g, b) && i == g - 1) && !(JoinsUpper(free, g, b) && i == g)
    ensures x < |Released(free, g, b)| && Released(free, g, b)[x] == free[i]
  {
    var d := if JoinsLower(free, g, b) then g - 1 else g;
    var u := if JoinsUpper(free, g, b) then g + 1 else g;
    x := if i < d then i else i - u + d + 1;
    ReleasedAt(free, g, b, x);
  }

  lemma MergedListed(free: seq<Block>, g: nat, b: Block) returns (x: nat)
    requires g <= |free|
    ensures x < |Released(free, g, b)| && Released(free, g, b)[x] == Merged(free, g, b)
  {
    x := if JoinsLower(free, g, b) then g - 1 else g;
    ReleasedAt(free, g, b, x);
  }

  /** The units of a block on the new list belong to it. */
  lemma ReleasedOwns(free: seq<Block>, live: map<int, int>, own: seq<int>, g: nat, b: int, i: nat)
    requires Tiled(free, live, own) && b in live && Gap(free, g, b) && i < |Released(free, g, Block(b, live[b]))|
    ensures var k := Block(b, live[b]);
            var r := Released(free, g, k)[i];
            Owns(Painted(own, Merged(free, g, k)), r) && r.start !in live - {b}
  {
    var k := Block(b, live[b]);
    var m := Merged(free, g, k);
    var d := if JoinsLower(free, g, k) then g - 1 else g;
    var u := if JoinsUpper(free, g, k) then g + 1 else g;
    LiveIsDisjoint(free, live, own, b);
    ReleasedAt(free, g, k, i);
    if i != d {
      var x := if i < d then i else i - d - 1 + u;
      assert Owns(own, free[x]);
      assert End(free[x]) <= m.start || End(m) <= free[x].start;
    }
  }

  /** The units of the blocks that stay handed out belong to them. */
  lemma LiveOwns(free: seq<Block>, live: map<int, int>, own: seq<int>, g: nat, b: int, c: int)
    requires Tiled(free, live, own) && b in live && Gap(free, g, b) && c in live && c != b
    ensures live[c] >= 1 && Owns(Painted(own, Merged(free, g, Block(b, live[b]))), Block(c, live[c]))
  {
    LiveIsDisjoint(free, live, own, c);
  }

  /** Giving a block back keeps the arena partitioned. */
  lemma ReleaseKeeps(free: seq<Block>, live: map<int, int>, own: seq<int>, g: nat, b: int)
    requires Tiled(free, live, own) && b in live && Gap(free, g, b)
    ensures var k := Block(b, live[b]);
            Tiled(Released(free, g, k), live - {b}, Painted(own, Merged(free, g, k)))
  {
    var k := Block(b, live[b]);
    var free', live', own' := Released(free, g, k), live - {b}, Painted(own, Merged(free, g, k));
    LiveIsDisjoint(free, live, own, b);
    ReleasedList(free, g, k);
    forall i | 0 <= i < |free'|
      ensures Owns(own', free'[i]) && free'[i].start !in live'
    {
      ReleasedOwns(free, live, own, g, b, i);
    }
    forall c | c in live'
      ensures live'[c] >= 1 && Owns(own', Block(c, live'[c]))
    {
      LiveOwns(free, live, own, g, b, c);
    }
    forall x | 0 <= x < |own'|
      ensures Placed(free', live', own', x)
    {
      ReleasePlaces(free, live, own, g, b, x);
    }
  }

  lemma ReleasePlaces(free: seq<Block>, live: map<int, int>, own: seq<int>, g: nat, b: int, x: int)
    requires FreeList(free) && b in live && live[b] >= 1 && Gap(free, g, b) && 0 <= x < |own| && Placed(free, live, own, x)
    ensures var k := Block(b, live[b]);
            Placed(Released(free, g, k), live - {b}, Painted(own, Merged(free, g, k)), x)
  {
    var k := Block(b, live[b]);
    var m, free' := Merged(free, g, k), Released(free, g, k);
    if m.start <= x < End(m) {
      var y := MergedListed(free, g, k);
      assert free'[y].start <= x < End(free'[y]);
    } else if i :| 0 <= i < |free| && free[i].start <= x < End(free[i]) {
      var y := StillListed(free, g, k, i);
      assert free'[y].start <= x < End(free'[y]);
    } else {
      assert own[x] in live - {b} && Painted(own, m)[x] == own[x];
    }
  }

  // ----- the state of the arena -----

  datatype State = State(free: seq<Block>, live: map<int, int>, own: seq<int>)

  function AfterTake(s: State, j: nat, n: int): State
    requires j < |s.free| && n <= s.free[j].size
  {
    var b := TakenBlock(s.free, j, n);
    State(Taken(s.free, j, n), s.live[b.start := n], Painted(s.own, b))
  }

  function AfterRelease(s: State, g: nat, b: int): State
    requires b in s.live && g <= |s.free|
  {
    var k := Block(b, s.live[b]);
    State(Released(s.free, g, k), s.live - {b}, Painted(s.own, Merged(s.free, g, k)))
  }

  /** The list is a single block of `n` units. */
  predicate OnlyBlock(free: seq<Block>, n: int) {
    |free| == 1 && free[0].size == n
  }

  /** The list is a single block, and `b` ends where it starts. */
  predicate BelowOnlyBlock(free: seq<Block>, b: Block) {
    |free| == 1 && End(b) == free[0].start
  }

  // ----- round trip -----

  /** The block that was just taken fits at one place only: where it was. */
  lemma TakenGap(free: seq<Block>, j: nat, n: int, g: nat)
    requires FreeList(free) && j < |free| && 1 <= n <= free[j].size && Gap(Taken(free, j, n), g, TakenBlock(free, j, n).start)
    ensures g == if free[j].size == n then j else j + 1
  {
    var free', k := Taken(free, j, n), if free[j].size == n then j else j + 1;
    if k < |free'| {
      TakenAt(free, j, n, k);
      assert free'[k] == free[j + 1];
    }
    if k > 0 {
      TakenAt(free, j, n, k - 1);
      assert free'[k - 1].start < TakenBlock(free, j, n).start;
    }
  }

  /** The block that was just taken, given back wherever it fits: the free list is restored, and the block is not joined
      to the only block of a list from below. */
  lemma TakeThenReleaseAnywhere(free: seq<Block>, j: nat, n: int, g: nat)
    requires FreeList(free) && j < |free| && 1 <= n <= free[j].size && Gap(Taken(free, j, n), g, TakenBlock(free, j, n).start)
    ensures !JoinsUpper(Taken(free, j, n), g, TakenBlock(free, j, n))
    ensures Released(Taken(free, j, n), g, TakenBlock(free, j, n)) == free
  {
    TakenGap(free, j, n, g);
    var free', b := Taken(free, j, n), TakenBlock(free, j, n);
    if g < |free'| {
      TakenAt(free, j, n, g);
      assert free'[g] == free[j + 1] && End(b) == End(free[j]) < free[j + 1].start;
    }
    if g > 0 {
      TakenAt(free, j, n, g - 1);
    }
    var r := Released(free', g, b);
    forall i | 0 <= i < |r|
      ensures r[i] == free[i]
    {
      ReleasedAt(free', g, b, i);
      var x := if i > j && free[j].size == n then i - 1 else i;
      if i != j {
        TakenAt(free, j, n, x);
      }
    }
  }

  /** The same for the whole state. */
  lemma RoundTrip(s: State, j: nat, n: int, g: nat)
    requires Tiled(s.free, s.live, s.own) && j < |s.free| && 1 <= n <= s.free[j].size
    requires Gap(AfterTake(s, j, n).free, g, TakenBlock(s.free, j, n).start)
    ensures var s', b := AfterTake(s, j, n), TakenBlock(s.free, j, n);
            && b.start in s'.live && s'.live[b.start] == b.size && (|s'.free| > 0 ==> !BelowOnlyBlock(s'.free, b))
            && AfterRelease(s', g, b.start).free == s.free && AfterRelease(s', g, b.start).live == s.live
  {
    var b := TakenBlock(s.free, j, n);
    TakeKeeps(s.free, s.live, s.own, j, n);
    TakeThenReleaseAnywhere(s.free, j, n, g);
    assert s.live[b.start := n] - {b.start} == s.live;
    assert |Taken(s.free, j, n)| == 1 && b.start < Taken(s.free, j, n)[0].start ==> g == 0;
  }

  // ----- runs -----

  datatype Op =
    | Take(j: nat, n: int)
    | Release(g: nat, b: int)

  /** The request can be made, and does not take the block holding the arena's first unit whole. */
  ghost predicate Allowed(s: State, op: Op) {
    match op
    case Take(j, n) => j < |s.free| && 1 <= n <= s.free[j].size && !(s.free[j].start == 0 && s.free[j].size == n)
    case Release(g, b) => b in s.live && Gap(s.free, g, b)
  }

  ghost function After(s: State, op: Op): State
    requires Allowed(s, op)
  {
    match op
    case Take(j, n) => AfterTake(s, j, n)
    case Release(g, b) => AfterRelease(s, g, b)
  }

  /** Each state follows from the one before by an allowed request. */
  ghost predicate Run(states: seq<State>, ops: seq<Op>) {
    && |states| == |ops| + 1
    && forall i {:trigger ops[i]} :: 0 <= i < |ops| ==> Allowed(states[i], ops[i]) && states[i + 1] == After(states[i], ops[i])
  }

  ghost predicate Sound(s: State) {
    Tiled(s.free, s.live, s.own) && |s.free| >= 1 && s.free[0].start == 0
  }

  lemma AfterIsSound(s: State, op: Op)
    requires Sound(s) && Allowed(s, op)
    ensures Sound(After(s, op))
  {
    match op
    case Take(j, n) =>
      TakeKeeps(s.free, s.live, s.own, j, n);
      TakenList(s.free, j, n);
      assert j > 0 ==> End(s.free[0]) < s.free[j].start;
      assert Owns(s.own, s.free[0]);
    case Release(g, b) =>
      var k := Block(b, s.live[b]);
      ReleaseKeeps(s.free, s.live, s.own, g, b);
      assert Owns(s.own, k) && s.free[0].start !in s.live;
      ReleasedAt(s.free, g, k, 0);
  }

  /** In every state of a run from a single free block, free and allocated blocks partition the arena and the first unit
      is free, so that the ring never consists of a block above one that is given back. */
  lemma {:induction false} RunIsSound(states: seq<State>, ops: seq<Op>, i: nat)
    requires Run(states, ops) && Sound(states[0]) && i <= |ops|
    ensures Sound(states[i])
    ensures i < |ops| && ops[i].Take? ==> !OnlyBlock(states[i].free, ops[i].n)
    ensures i < |ops| && ops[i].Release? ==> !BelowOnlyBlock(states[i].free, Block(ops[i].b, states[i].live[ops[i].b]))
  {
    if i > 0 {
      RunIsSound(states, ops, i - 1);
      assert states[i] == After(states[i - 1], ops[i - 1]);
      AfterIsSound(states[i - 1], ops[i - 1]);
    }
    if i < |ops| {
      assert Allowed(states[i], ops[i]);
      if ops[i].Release? {
        assert Owns(states[i].own, Block(ops[i].b, states[i].live[ops[i].b]));
      }
    }
  }

  /** At most one request, and the state after it. */
  ghost predicate Steps(s: State, ops: seq<Op>, s': State) {
    if ops == [] then s' == s else |ops| == 1 && Allowed(s, ops[0]) && s' == After(s, ops[0])
  }

  /** A run from `first` to `last`. */
  ghost predicate RunFrom(first: State, states: seq<State>, ops: seq<Op>, last: State) {
    Run(states, ops) && states[0] == first && states[|ops|] == last
  }

  lemma RunExtended(first: State, states: seq<State>, ops: seq<Op>, last: State, step: seq<Op>, s: State)
    requires RunFrom(first, states, ops, last) && Steps(last, step, s)
    ensures RunFrom(first, if step == [] then states else states + [s], ops + step, s)
  {
    if step == [] {
      assert ops + step == ops;
    }
  }
}
