/** What sigma0 promises about physical memory, independently of how it keeps its books.

    A memory state gives each address a status. A request either takes nothing and changes nothing, or grants one
    aligned block. The safety theorems hold of every run of such steps. */
module PhysicalMemory {
  import opened Words
  import opened Wrappers
  import opened Blocks

  datatype Status = Absent | Conventional | Other | Owned(owner: Word)

  type Memory = int -> Status

  datatype Request =
    | AtAddress(tid: Word, addr: Word, log2size: nat, onlyConventional: bool)
    | Anywhere(tid: Word, log2size: nat)

  /** Thread `tid` may have this address. */
  predicate Usable(s: Status, tid: Word, onlyConventional: bool) {
    match s
    case Absent => false
    case Conventional => true
    case Other => !onlyConventional
    case Owned(o) => OwnerAllows(o, tid)
  }

  predicate In(a: int, lo: int, size: int) {
    lo <= a < lo + size
  }

  ghost predicate AllUsable(m: Memory, lo: int, size: int, tid: Word, onlyConventional: bool) {
    forall a :: In(a, lo, size) ==> Usable(m(a), tid, onlyConventional)
  }

  /** The whole block has one status. */
  ghost predicate Uniform(m: Memory, lo: int, size: int) {
    forall a :: In(a, lo, size) ==> m(a) == m(lo)
  }

  /** The block can be granted. A block that ends at the top of the address space is refused unless it has one status
      throughout: the walk over its pages wraps. */
  ghost predicate Grantable(m: Memory, lo: int, size: int, tid: Word, onlyConventional: bool) {
    AllUsable(m, lo, size, tid, onlyConventional) && (lo + size < WORD || Uniform(m, lo, size))
  }

  /** What was free in the block now belongs to `tid`; nothing else changed. */
  ghost predicate Granted(m: Memory, m': Memory, lo: int, size: int, tid: Word) {
    forall a :: m'(a) == if In(a, lo, size) && !m(a).Owned? then Owned(tid) else m(a)
  }

  ghost predicate Same(m: Memory, m': Memory) {
    forall a :: m'(a) == m(a)
  }

  /** Some aligned block is conventional throughout. */
  ghost predicate ConventionalBlock(m: Memory, lo: Word, size: int)
    requires size > 0
  {
    lo % size == 0 && forall a :: In(a, lo, size) ==> m(a) == Conventional
  }

  /** One request, answered with the base of the granted block or with nothing. `page` is the log2 of the page size. */
  ghost predicate Step(m: Memory, r: Request, m': Memory, reply: Option<Word>, page: nat) {
    r.log2size < 32 &&
    var size := Size(r.log2size);
    && (reply.None? ==> Same(m, m'))
    && match r
       case AtAddress(tid, addr, log2size, only) =>
         var lo := AlignDown(addr, size);
         && (reply.Some? <==> log2size >= page && Grantable(m, lo, size, tid, only))
         && (reply.Some? ==> reply.value == lo && Granted(m, m', lo, size, tid))
       case Anywhere(tid, log2size) =>
         && (reply.Some? <==> log2size >= page && exists lo: Word :: ConventionalBlock(m, lo, size))
         && (reply.Some? ==> ConventionalBlock(m, reply.value, size) && Granted(m, m', reply.value, size, tid))
  }

  /** A run: `ms[i]` is the memory before the `i`-th request. */
  ghost predicate Run(ms: seq<Memory>, rs: seq<Request>, replies: seq<Option<Word>>, page: nat) {
    && |ms| == |rs| + 1 && |replies| == |rs|
    && forall i :: 0 <= i < |rs| ==> Step(ms[i], rs[i], ms[i + 1], replies[i], page)
  }

  /** Address `a` was mapped to the thread that made request `i`. */
  predicate Mapped(rs: seq<Request>, replies: seq<Option<Word>>, i: nat, a: int)
    requires i < |rs| == |replies|
  {
    replies[i].Some? && rs[i].log2size < 32 && In(a, replies[i].value, Size(rs[i].log2size))
  }

  // ----- one step -----

  /** A step never takes an address away from its owner, never moves one out of the managed memory, and maps only
      addresses that now belong to the requester or to everyone. */
  lemma StepKeeps(m: Memory, r: Request, m': Memory, reply: Option<Word>, page: nat, a: int)
    requires Step(m, r, m', reply, page)
    ensures m(a).Owned? ==> m'(a) == m(a)
    ensures m(a).Absent? <==> m'(a).Absent?
    ensures m'(a) == m(a) || m'(a) == Owned(r.tid)
    ensures reply.Some? && In(a, reply.value, Size(r.log2size)) ==> m'(a).Owned? && OwnerAllows(m'(a).owner, r.tid)
  {
  }

  /** Granting a block piece by piece. */
  lemma GrantsJoin(m: Memory, m': Memory, m'': Memory, lo: int, n: int, k: int, tid: Word)
    requires 0 <= n && 0 <= k && Granted(m, m', lo, n, tid) && Granted(m', m'', lo + n, k, tid)
    ensures Granted(m, m'', lo, n + k, tid)
  {
  }

  /** What is usable stays usable while the addresses below it are granted. */
  lemma RestStaysUsable(m: Memory, m': Memory, lo: int, n: int, k: int, tid: Word, only: bool)
    requires 0 <= n && AllUsable(m, lo + n, k, tid, only) && Granted(m, m', lo, n, tid)
    ensures AllUsable(m', lo + n, k, tid, only)
  {
  }

  lemma UsableJoin(m: Memory, lo: int, n: int, k: int, tid: Word, only: bool)
    requires 0 <= n && 0 <= k
    ensures AllUsable(m, lo, n + k, tid, only) <==> AllUsable(m, lo, n, tid, only) && AllUsable(m, lo + n, k, tid, only)
  {
  }

  // ----- every run -----

  lemma {:induction false} RunKeeps(ms: seq<Memory>, rs: seq<Request>, replies: seq<Option<Word>>, page: nat, i: nat, j: nat, a: int)
    requires Run(ms, rs, replies, page) && i <= j < |ms|
    ensures ms[i](a).Owned? ==> ms[j](a) == ms[i](a)
    ensures ms[i](a).Absent? <==> ms[j](a).Absent?
    decreases j - i
  {
    if i < j {
      RunKeeps(ms, rs, replies, page, i, j - 1, a);
      StepKeeps(ms[j - 1], rs[j - 1], ms[j], replies[j - 1], page, a);
    }
  }

  /** No address is ever mapped to two different threads, unless it belongs to everyone. */
  lemma ExclusiveMapping(ms: seq<Memory>, rs: seq<Request>, replies: seq<Option<Word>>, page: nat, i: nat, j: nat, a: int)
    requires Run(ms, rs, replies, page) && i <= j < |rs|
    requires Mapped(rs, replies, i, a) && Mapped(rs, replies, j, a)
    ensures rs[i].tid == rs[j].tid || ms[|rs|](a) == Owned(ANYTHREAD)
  {
    StepKeeps(ms[i], rs[i], ms[i + 1], replies[i], page, a);
    StepKeeps(ms[j], rs[j], ms[j + 1], replies[j], page, a);
    RunKeeps(ms, rs, replies, page, i + 1, j + 1, a);
    RunKeeps(ms, rs, replies, page, j + 1, |rs|, a);
  }

  /** Whoever owns an address at the end either owned it at the start or asked for it. */
  lemma {:induction false} OwnersAsked(ms: seq<Memory>, rs: seq<Request>, replies: seq<Option<Word>>, page: nat, n: nat, a: int)
    requires Run(ms, rs, replies, page) && n < |ms| && ms[n](a).Owned? && ms[n](a) != ms[0](a)
    ensures exists i :: 0 <= i < n && rs[i].tid == ms[n](a).owner && Mapped(rs, replies, i, a)
  {
    StepKeeps(ms[n - 1], rs[n - 1], ms[n], replies[n - 1], page, a);
    if ms[n - 1](a) == ms[n](a) {
      OwnersAsked(ms, rs, replies, page, n - 1, a);
    } else {
      assert Mapped(rs, replies, n - 1, a);
    }
  }

  /** A granted block belongs to the requester or to everyone; one at the top of the address space has a single owner. */
  lemma GrantIsOwned(m: Memory, r: Request, m': Memory, reply: Option<Word>, page: nat)
    requires Step(m, r, m', reply, page) && reply.Some?
    ensures forall a {:trigger m'(a)} :: In(a, reply.value, Size(r.log2size)) ==> m'(a).Owned? && OwnerAllows(m'(a).owner, r.tid)
    ensures reply.value + Size(r.log2size) >= WORD ==> Uniform(m', reply.value, Size(r.log2size))
  {
    var lo, size := reply.value, Size(r.log2size);
    forall a | In(a, lo, size)
      ensures m'(a).Owned? && OwnerAllows(m'(a).owner, r.tid)
      ensures lo + size >= WORD ==> m(a) == m(lo)
    {
      StepKeeps(m, r, m', reply, page, a);
    }
    assert Granted(m, m', lo, size, r.tid) && In(lo, lo, size);
  }

  /** What was granted can be asked for again by the same thread at any later time in a run, in whole or in part: the answer
      is the block, and nothing changes. */
  lemma GrantIsStable(ms: seq<Memory>, rs: seq<Request>, replies: seq<Option<Word>>, page: nat, i: nat, j: nat)
    requires Run(ms, rs, replies, page) && i < j < |rs| && replies[i].Some?
    requires rs[j].AtAddress? && rs[j].tid == rs[i].tid && page <= rs[j].log2size < 32 && rs[i].log2size < 32
    requires replies[i].value <= AlignDown(rs[j].addr, Size(rs[j].log2size))
    requires AlignDown(rs[j].addr, Size(rs[j].log2size)) + Size(rs[j].log2size) <= replies[i].value + Size(rs[i].log2size)
    ensures replies[j] == Some(AlignDown(rs[j].addr, Size(rs[j].log2size))) && Same(ms[j], ms[j + 1])
  {
    var lo, size := replies[i].value, Size(rs[i].log2size);
    var lo', size' := AlignDown(rs[j].addr, Size(rs[j].log2size)), Size(rs[j].log2size);
    GrantIsOwned(ms[i], rs[i], ms[i + 1], replies[i], page);
    forall a | In(a, lo, size)
      ensures ms[j](a) == ms[i + 1](a)
    {
      RunKeeps(ms, rs, replies, page, i + 1, j, a);
    }
    assert In(lo, lo, size) && In(lo', lo, size);
    forall a | In(a, lo', size')
      ensures Usable(ms[j](a), rs[j].tid, rs[j].onlyConventional) && ms[j](a).Owned?
      ensures lo' + size' >= WORD ==> ms[j](a) == ms[j](lo')
    {
      assert In(a, lo, size);
    }
    assert Step(ms[j], rs[j], ms[j + 1], replies[j], page);
  }

  lemma RunGrows(ms: seq<Memory>, rs: seq<Request>, replies: seq<Option<Word>>, r: Request, m: Memory, reply: Option<Word>, page: nat)
    requires Run(ms, rs, replies, page) && Step(ms[|rs|], r, m, reply, page)
    ensures Run(ms + [m], rs + [r], replies + [reply], page)
  {
  }
}
