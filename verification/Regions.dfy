/** sigma0's region nodes and region pools: sentinel-bounded doubly linked lists, edited in place. */
module Regions {
  import opened Words
  import opened Wrappers
  import opened Sequences
  import opened Spans
  import opened Blocks

  /** A flexpage with full access rights. */
  datatype Fpage = Nilpage | Fpage(base: Word, log2size: nat)

  class Region {
    var low: Word
    var high: Word
    var owner: Word
    var prev: Region?
    var next: Region?

    constructor (low: Word, high: Word, owner: Word)
      ensures this.low == low && this.high == high && this.owner == owner
    {
      this.low, this.high, this.owner := low, high, owner;
    }

    function Value(): Span
      reads this
    {
      Span(low, high, owner)
    }

    method Unlink()
      requires prev != null && next != null
      modifies prev`next, next`prev
      ensures old(prev).next == old(next) && old(next).prev == old(prev)
    {
      var p, n := prev, next;
      p.next := n;
      n.prev := p;
    }

    /** Take over the range of `r` if it touches this one and has the same owner. */
    method Concatenate(r: Region) returns (ok: bool)
      modifies this`low, this`high
      ensures ok == Touches(old(Value()), old(r.Value()))
      ensures Value() == if ok then Union(old(Value()), old(r.Value())) else old(Value())
    {
      if owner != r.owner {
        return false;
      }
      if low == Add(r.high, 1) && low != 0 {
        low := r.low;
      } else if Add(high, 1) == r.low && r.low != 0 {
        high := r.high;
      } else {
        return false;
      }
      return true;
    }
  }

  /** `next` runs through the list and closes the ring. */
  ghost predicate Forward(ns: seq<Region>)
    reads ns
  {
    && |ns| >= 2
    && (forall i {:trigger ns[i].next} :: 0 <= i < |ns| - 1 ==> ns[i].next == ns[i + 1])
    && ns[|ns| - 1].next == ns[0]
  }

  /** `prev` runs back through the list and closes the ring. */
  ghost predicate Backward(ns: seq<Region>)
    reads ns
  {
    && |ns| >= 2
    && (forall i {:trigger ns[i].prev} :: 0 < i < |ns| ==> ns[i].prev == ns[i - 1])
    && ns[0].prev == ns[|ns| - 1]
  }

  /** Between two sentinels the nodes hold the regions `ss`. */
  ghost predicate Holds(ns: seq<Region>, ss: seq<Span>)
    reads ns
  {
    && |ns| == |ss| + 2
    && ns[0].Value() == FIRST && ns[|ns| - 1].Value() == LAST
    && (forall i {:trigger ss[i]} :: 0 <= i < |ss| ==> ns[i + 1].Value() == ss[i])
  }

  ghost predicate Shape(ns: seq<Region>, ss: seq<Span>)
    reads ns
  {
    Distinct(ns) && Forward(ns) && Backward(ns) && Holds(ns, ss)
  }

  /** Changing the range of the `k`-th node only. */
  twostate lemma AfterResize(ns: seq<Region>, new ss: seq<Span>, new k: nat)
    requires old(Shape(ns, ss)) && 1 <= k < |ns| - 1
    requires forall x {:trigger ns[x].next} :: 0 <= x < |ns| ==> ns[x].next == old(ns[x].next)
    requires forall x {:trigger ns[x].prev} :: 0 <= x < |ns| ==> ns[x].prev == old(ns[x].prev)
    requires forall x {:trigger ns[x].Value()} :: 0 <= x < |ns| && x != k ==> ns[x].Value() == old(ns[x].Value())
    ensures Shape(ns, ss[k - 1 := ns[k].Value()])
  {
  }

  lemma WithoutMembers(ns: seq<Region>, k: nat, R: set<object>)
    requires 1 <= k < |ns| - 1 && forall i :: 0 <= i < |ns| ==> ns[i] in R
    ensures var r := Without(ns, k); r[0] == ns[0] && r[|r| - 1] == ns[|ns| - 1] && forall i :: 0 <= i < |r| ==> r[i] in R
  {
  }

  lemma WithMembers(ns: seq<Region>, k: nat, n: Region, R: set<object>)
    requires 1 <= k < |ns| && n in R && forall i :: 0 <= i < |ns| ==> ns[i] in R
    ensures var r := With(ns, k, n); r[0] == ns[0] && r[|r| - 1] == ns[|ns| - 1] && forall i :: 0 <= i < |r| ==> r[i] in R
  {
  }

  twostate lemma UnlinkForward(ns: seq<Region>, new k: nat)
    requires old(Forward(ns)) && 1 <= k < |ns| - 1 && ns[k - 1].next == ns[k + 1]
    requires forall x {:trigger ns[x].next} :: 0 <= x < |ns| && x != k - 1 && x != k ==> ns[x].next == old(ns[x].next)
    ensures Forward(Without(ns, k))
  {
    var r := Without(ns, k);
    forall i | 0 <= i < |r| - 1
      ensures r[i].next == r[i + 1]
    {
      var x := if i < k then i else i + 1;
      assert r[i] == ns[x] && r[i + 1] == ns[if i + 1 < k then i + 1 else i + 2];
      assert i != k - 1 ==> ns[x].next == old(ns[x].next) == ns[x + 1];
    }
  }

  twostate lemma UnlinkBackward(ns: seq<Region>, new k: nat)
    requires old(Backward(ns)) && 1 <= k < |ns| - 1 && ns[k + 1].prev == ns[k - 1]
    requires forall x {:trigger ns[x].prev} :: 0 <= x < |ns| && x != k && x != k + 1 ==> ns[x].prev == old(ns[x].prev)
    ensures Backward(Without(ns, k))
  {
    var r := Without(ns, k);
    forall i | 0 < i < |r|
      ensures r[i].prev == r[i - 1]
    {
      var x := if i < k then i else i + 1;
      assert r[i] == ns[x] && r[i - 1] == ns[if i - 1 < k then i - 1 else i];
      assert i != k ==> ns[x].prev == old(ns[x].prev) == ns[x - 1];
    }
  }

  twostate lemma LinkForward(ns: seq<Region>, new k: nat, new n: Region)
    requires old(Forward(ns)) && 1 <= k < |ns| && ns[k - 1].next == n && n.next == ns[k]
    requires forall x {:trigger ns[x].next} :: 0 <= x < |ns| && x != k - 1 ==> ns[x].next == old(ns[x].next)
    ensures Forward(With(ns, k, n))
  {
    var r := With(ns, k, n);
    forall i | 0 <= i < |r| - 1
      ensures r[i].next == r[i + 1]
    {
      assert i != k ==> r[i] == ns[if i < k then i else i - 1];
      assert i + 1 != k ==> r[i + 1] == ns[if i + 1 < k then i + 1 else i];
    }
  }

  twostate lemma LinkBackward(ns: seq<Region>, new k: nat, new n: Region)
    requires old(Backward(ns)) && 1 <= k < |ns| && n.prev == ns[k - 1] && ns[k].prev == n
    requires forall x {:trigger ns[x].prev} :: 0 <= x < |ns| && x != k ==> ns[x].prev == old(ns[x].prev)
    ensures Backward(With(ns, k, n))
  {
    var r := With(ns, k, n);
    forall i | 0 < i < |r|
      ensures r[i].prev == r[i - 1]
    {
      assert i != k ==> r[i] == ns[if i < k then i else i - 1];
      assert i - 1 != k ==> r[i - 1] == ns[if i - 1 < k then i - 1 else i - 2];
    }
  }

  twostate predicate SameValues(ns: seq<Region>)
    reads ns
  {
    forall x {:trigger ns[x].Value()} :: 0 <= x < |ns| ==> ns[x].Value() == old(ns[x].Value())
  }

  /** Unlinking the `k`-th node. */
  twostate lemma AfterUnlink(ns: seq<Region>, new ss: seq<Span>, new k: nat)
    requires old(Shape(ns, ss)) && 1 <= k < |ns| - 1
    requires ns[k - 1].next == ns[k + 1] && ns[k + 1].prev == ns[k - 1] && SameValues(ns)
    requires forall x {:trigger ns[x].next} :: 0 <= x < |ns| && x != k - 1 && x != k ==> ns[x].next == old(ns[x].next)
    requires forall x {:trigger ns[x].prev} :: 0 <= x < |ns| && x != k && x != k + 1 ==> ns[x].prev == old(ns[x].prev)
    ensures Shape(Without(ns, k), Without(ss, k - 1))
  {
    WithoutDistinct(ns, k);
    UnlinkForward(ns, k);
    UnlinkBackward(ns, k);
  }

  /** Linking the new node `n` in front of the `k`-th node. */
  twostate lemma AfterLink(ns: seq<Region>, new ss: seq<Span>, new k: nat, new n: Region)
    requires old(Shape(ns, ss)) && 1 <= k < |ns| && n !in ns
    requires ns[k - 1].next == n && n.prev == ns[k - 1] && n.next == ns[k] && ns[k].prev == n && SameValues(ns)
    requires forall x {:trigger ns[x].next} :: 0 <= x < |ns| && x != k - 1 ==> ns[x].next == old(ns[x].next)
    requires forall x {:trigger ns[x].prev} :: 0 <= x < |ns| && x != k ==> ns[x].prev == old(ns[x].prev)
    ensures Shape(With(ns, k, n), With(ss, k - 1, n.Value()))
  {
    WithDistinct(ns, k, n);
    LinkForward(ns, k, n);
    LinkBackward(ns, k, n);
  }

  /** Taking an aligned block out of the span that holds it. */
  lemma CarveBlock(ss: seq<Span>, k: nat, addr: Word, log2size: nat)
    requires WellFormed(ss) && k < |ss|
    requires 1 <= log2size < 32 && Inside(ss[k], addr, Size(log2size))
    ensures WellFormed(Carve(ss, k, addr, addr + Size(log2size) - 1))
    ensures Removed(ss, Carve(ss, k, addr, addr + Size(log2size) - 1), addr, addr + Size(log2size) - 1)
  {
    CarveCorrect(ss, k, addr, addr + Size(log2size) - 1);
  }

  /** What the slow path knows after the first `k` regions: whether one gave the page, and, if it was to be taken, that it
      is gone. */
  ghost predicate Stepped(ss: seq<Span>, now: seq<Span>, k: nat, a: Word, size: Word, tid: Word, take: bool, found: bool) {
    && (found ==> exists i :: 0 <= i < |ss| && OffersPage(ss, i, a, size, tid))
    && (if found && take then Removed(ss, now, a, a + size - 1) && At(now, a) == None else now == ss)
    && (!found ==> forall i :: 0 <= i < k <= |ss| ==> !OffersPage(ss, i, a, size, tid))
  }

  lemma SteppedNext(ss: seq<Span>, was: seq<Span>, now: seq<Span>, k: nat, next: nat, a: Word, size: Word, tid: Word, take: bool,
                    found: bool, gives: bool)
    requires Stepped(ss, was, k, a, size, tid, take, found) && k < |was| && size > 0
    requires (gives <==> OffersPage(was, k, a, size, tid)) && (gives ==> At(was, a).Some?)
    requires if gives && take then Removed(was, now, a, a + size - 1) else next == k + 1 && now == was
    ensures Stepped(ss, now, next, a, size, tid, take, found || gives)
  {
  }

  /** A set of memory regions: an ascending doubly linked list between two sentinels, with an iterator. */
  class Pool {
    const first: Region
    const last: Region
    var ptr: Region
    /** The nodes in list order, sentinels included, and the regions they hold. */
    ghost var nodes: seq<Region>
    ghost var spans: seq<Span>
    ghost var Repr: set<object>

    /** The list runs between the sentinels and inside the footprint. */
    ghost predicate Framed()
      reads this
    {
      && this in Repr && (forall i :: 0 <= i < |nodes| ==> nodes[i] in Repr)
      && |nodes| >= 2 && nodes[0] == first && nodes[|nodes| - 1] == last
    }

    ghost predicate Valid()
      reads this, Repr
      ensures Valid() ==> this in Repr
    {
      && Framed() && Shape(nodes, spans)
      && WellFormed(spans)
    }

    constructor ()
      ensures Valid() && fresh(Repr) && spans == []
    {
      var f := new Region(0, 0, NILTHREAD);
      var l := new Region(MAX, MAX, NILTHREAD);
      f.next, f.prev := l, l;
      l.next, l.prev := f, f;
      first, last, ptr := f, l, l;
      nodes, spans, Repr := [f, l], [], {this, f, l};
    }

    /** The two nodes between which a region starting at `low` belongs. */
    method FindSlot(low: Word) returns (p: Region, n: Region, ghost k: nat)
      requires Valid()
      ensures Slot(spans, k, low) && p == nodes[k] && n == nodes[k + 1]
    {
      k := 0;
      assert first.next == nodes[1];
      p, n := first, first.next;
      while low > n.high
        invariant 0 <= k <= |spans| && p == nodes[k] && n == nodes[k + 1]
        invariant forall i :: 0 <= i < k ==> spans[i].high < low
        decreases |spans| - k
      {
        assert k < |spans| ==> n.Value() == spans[k];
        assert n.next == nodes[k + 2];
        p, n := n, n.next;
        k := k + 1;
      }
      assert k < |spans| ==> n.Value() == spans[k];
    }

    method Absorb(x: Region, r: Region, ghost k: nat) returns (ok: bool)
      requires Framed() && Shape(nodes, spans) && k < |nodes| && x == nodes[k] && r != x
      requires k == 0 || k == |nodes| - 1 ==> !Touches(x.Value(), r.Value())
      modifies x`low, x`high, this`spans
      ensures Shape(nodes, spans) && ok == Touches(old(x.Value()), r.Value())
      ensures spans == if ok then old(spans)[k - 1 := Union(old(x.Value()), r.Value())] else old(spans)
    {
      ok := x.Concatenate(r);
      if ok {
        AfterResize(nodes, spans, k);
        spans := spans[k - 1 := x.Value()];
      }
    }

    /** Take the node `x` off the list. */
    method Unchain(x: Region, ghost k: nat)
      requires Framed() && Shape(nodes, spans) && 1 <= k < |nodes| - 1 && x == nodes[k]
      modifies x.prev`next, x.next`prev, this`spans, this`nodes
      ensures Framed() && Shape(nodes, spans) && nodes == Without(old(nodes), k) && spans == Without(old(spans), k - 1)
    {
      assert x.prev == nodes[k - 1] && x.next == nodes[k + 1];
      x.Unlink();
      ghost var ns, ss := nodes, spans;
      nodes, spans := Without(ns, k), Without(ss, k - 1);
      assert forall y {:trigger ns[y].next} :: 0 <= y < |ns| && y != k - 1 && y != k ==> ns[y].next == old(ns[y].next);
      assert forall y {:trigger ns[y].prev} :: 0 <= y < |ns| && y != k && y != k + 1 ==> ns[y].prev == old(ns[y].prev);
      AfterUnlink(ns, ss, k);
      WithoutMembers(ns, k, Repr);
    }

    /** Let `p` take over its successor `n` if they touch. */
    method CloseGap(p: Region, n: Region, ghost k: nat)
      requires Framed() && Shape(nodes, spans) && 1 <= k < |nodes| - 1 && p == nodes[k] && n == nodes[k + 1]
      requires k + 1 == |nodes| - 1 ==> !Touches(p.Value(), n.Value())
      modifies p, n.next`prev, this`spans, this`nodes
      ensures Framed() && Shape(nodes, spans)
      ensures spans == if Touches(old(p.Value()), old(n.Value())) then Without(old(spans)[k - 1 := Union(old(p.Value()), old(n.Value()))], k)
                       else old(spans)
    {
      assert n.prev == nodes[k];
      var more := Absorb(p, n, k);
      if more {
        Unchain(n, k + 1);
      }
    }

    method Link(r: Region, p: Region, n: Region, ghost k: nat)
      requires Framed() && Shape(nodes, spans) && 1 <= k < |nodes| && r !in nodes && r in Repr && p == nodes[k - 1] && n == nodes[k]
      modifies r, p`next, n`prev, this`spans, this`nodes
      ensures Framed() && Shape(nodes, spans) && nodes == With(old(nodes), k, r) && spans == With(old(spans), k - 1, old(r.Value()))
    {
      r.next := n;
      r.prev := p;
      p.next := r;
      n.prev := r;
      AfterLink(nodes, spans, k, r);
      WithMembers(nodes, k, r, Repr);
      nodes, spans := With(nodes, k, r), With(spans, k - 1, r.Value());
    }

    /** Let `n` take over `r` if they touch, and otherwise link `r` in front of it. */
    method JoinOrLink(r: Region, p: Region, n: Region, ghost k: nat)
      requires Framed() && Shape(nodes, spans) && k <= |spans| && p == nodes[k] && n == nodes[k + 1] && r !in nodes && r in Repr
      requires k == |spans| ==> !Touches(n.Value(), r.Value())
      modifies this`spans, this`nodes, r, n, p`next
      ensures Framed() && Shape(nodes, spans)
      ensures spans == if Touches(old(n.Value()), old(r.Value())) then old(spans)[k := Union(old(n.Value()), old(r.Value()))]
                       else With(old(spans), k, old(r.Value()))
    {
      var joined := Absorb(n, r, k + 1);
      if !joined {
        Link(r, p, n, k + 1);
      }
    }

    /** Put `r` between its neighbours `p` and `n`, joining it with those it touches. */
    method Place(r: Region, p: Region, n: Region, ghost k: nat)
      requires Framed() && Shape(nodes, spans) && k <= |spans| && p == nodes[k] && n == nodes[k + 1] && r !in nodes && r in Repr
      requires KeepsOff(spans, k, r.Value())
      modifies this`spans, this`nodes, r, p, n, n.next
      ensures Framed() && Shape(nodes, spans) && spans == Placed(old(spans), k, old(r.Value()))
    {
      assert p.Value() == Below(spans, k) && n.Value() == Above(spans, k);
      var joined := Absorb(p, r, k);
      if joined {
        assert p.Value() == spans[k - 1] && n.Value() == Above(old(spans), k);
        CloseGap(p, n, k);
      } else {
        JoinOrLink(r, p, n, k);
      }
    }

    /** Insert a region that overlaps no other, joining it with its neighbours. */
    method InsertNode(r: Region)
      requires Valid() && r !in Repr && Proper(r.Value()) && Apart(spans, r.Value())
      modifies Repr, r
      ensures Valid() && fresh(Repr - old(Repr) - {r})
      ensures Added(old(spans), spans, old(r.low), old(r.high), old(r.owner))
    {
      var p, n, k := FindSlot(r.low);
      InsertedCorrect(spans, k, r.Value());
      PlacedIsInserted(spans, k, r.Value());
      assert k < |spans| ==> n.next == nodes[k + 2];
      assert k == |spans| ==> n.next == nodes[0];
      Repr := Repr + {r};
      Place(r, p, n, k);
    }

    method Insert(low: Word, high: Word, owner: Word)
      requires Valid() && Proper(Span(low, high, owner))
      requires Unowned(spans, low, high)
      modifies Repr
      ensures Valid() && fresh(Repr - old(Repr))
      ensures Added(old(spans), spans, low, high, owner)
    {
      WellFormedIsSorted(spans);
      UnownedIsApart(spans, Span(low, high, owner));
      var r := new Region(low, high, owner);
      InsertNode(r);
    }

    /** Take the node `x`, which lies in `[low, high]`, off the list. */
    method Drop(x: Region, ghost k: nat)
      requires Valid() && k < |spans| && x == nodes[k + 1]
      modifies Repr
      ensures Valid() && Repr == old(Repr) && nodes == Without(old(nodes), k + 1) && spans == Without(old(spans), k)
      ensures Removed(old(spans), spans, old(x.low), old(x.high))
    {
      assert x.Value() == spans[k] && Proper(spans[k]);
      CarveForms(spans, k, x.low, x.high);
      CarveCorrect(spans, k, x.low, x.high);
      assert x.prev == nodes[k] && x.next == nodes[k + 2];
      Unchain(x, k + 1);
    }

    method Resize(x: Region, low: Word, high: Word, ghost k: nat)
      requires Framed() && Shape(nodes, spans) && 1 <= k < |nodes| - 1 && x == nodes[k]
      modifies x`low, x`high, this`spans
      ensures Shape(nodes, spans) && spans == old(spans)[k - 1 := Span(low, high, x.owner)] && x.low == low && x.high == high
    {
      x.low := low;
      x.high := high;
      AfterResize(nodes, spans, k);
      spans := spans[k - 1 := x.Value()];
    }

    /** Cut `[lo, hi]` off one end of the node `x`. */
    method Trim(x: Region, low: Word, high: Word, ghost k: nat, ghost lo: Word, ghost hi: Word)
      requires Valid() && k < |spans| && x == nodes[k + 1]
      requires Cut(lo, hi) && x.low <= lo <= hi <= x.high
      requires Remains(x.Value(), lo, hi) == [Span(low, high, x.owner)]
      modifies x`low, x`high, this`spans
      ensures Valid() && spans == old(spans)[k := Span(low, high, x.owner)]
      ensures Removed(old(spans), spans, lo, hi)
    {
      assert x.Value() == spans[k];
      CarveForms(spans, k, lo, hi);
      CarveCorrect(spans, k, lo, hi);
      Resize(x, low, high, k + 1);
    }

    /** Cut `[low, high]` out of the inside of the node `x`: trim it, and insert what remains above. */
    method Split(x: Region, low: Word, high: Word, ghost k: nat)
      requires Valid() && Cut(low, high)
      requires k < |spans| && x == nodes[k + 1] && x.low < low && high < x.high
      modifies Repr
      ensures Valid() && fresh(Repr - old(Repr))
      ensures Removed(old(spans), spans, low, high)
    {
      assert x.Value() == spans[k] && Proper(spans[k]);
      SpanOwns(spans, k);
      var oldHigh := x.high;
      Trim(x, x.low, low - 1, k, low, oldHigh);
      Insert(high + 1, oldHigh, x.owner);
    }

    /** The removal walk stands before position `i`: nothing below it meets `[low, high]`. */
    ghost predicate Walked(n: Region, i: nat, low: Word, high: Word)
      reads this
    {
      && i <= |spans| && i + 1 < |nodes| && n == nodes[i + 1]
      && (i < |spans| ==> low <= spans[i].high) && Cleared(spans[..i], low, high)
    }

    /** Remove what `[low, high]` covers of the node `n`; `done` when nothing above `n` can be affected. */
    method RemoveFrom(n: Region, low: Word, high: Word, ghost i: nat) returns (next: Region, done: bool, ghost j: nat)
      requires Valid() && Cut(low, high) && Walked(n, i, low, high) && n != last
      modifies Repr
      ensures Valid() && fresh(Repr - old(Repr))
      ensures !done ==> Repr == old(Repr) && Walked(next, j, low, high) && |nodes| - j < |old(nodes)| - i
      ensures done ==> Unowned(spans, low, high)
      ensures forall a :: At(spans, a) == At(old(spans), a) || (low <= a <= high && At(spans, a) == None)
    {
      assert n.Value() == spans[i] && Proper(spans[i]);
      assert n.next == nodes[i + 2];
      assert i + 1 < |spans| ==> Neighbours(spans, i);
      next, done, j := n.next, false, i + 1;
      if low <= n.low && high >= n.high {
        Drop(n, i);
        j := i;
      } else if low <= n.low && high >= n.low {
        TrimLow(n, low, high, i);
        done := true;
      } else if low > n.low && low <= n.high {
        if high < n.high {
          Split(n, low, high, i);
          done := true;
        } else {
          TrimHigh(n, low, high, i);
        }
      }
    }

    /** The range ends inside the node: nothing above can be affected. */
    method TrimLow(n: Region, low: Word, high: Word, ghost i: nat)
      requires Valid() && Cut(low, high) && Walked(n, i, low, high) && n != last && low <= n.low <= high < n.high
      modifies n`low, n`high, this`spans
      ensures Valid() && Unowned(spans, low, high)
      ensures forall a :: At(spans, a) == At(old(spans), a) || (low <= a <= high && At(spans, a) == None)
    {
      assert n.Value() == spans[i] && Proper(spans[i]);
      assert i + 1 < |spans| ==> Neighbours(spans, i);
      Trim(n, high + 1, n.high, i, n.low, high);
      ClearedBeyond(spans, i, low, high);
      ClearedIsUnowned(spans, low, high);
    }

    /** The range begins inside the node and goes on above it. */
    method TrimHigh(n: Region, low: Word, high: Word, ghost i: nat)
      requires Valid() && Cut(low, high) && Walked(n, i, low, high) && n != last && n.low < low <= n.high <= high
      modifies n`low, n`high, this`spans
      ensures Valid() && i + 2 < |nodes| && Walked(nodes[i + 2], i + 1, low, high)
      ensures forall a :: At(spans, a) == At(old(spans), a) || (low <= a <= high && At(spans, a) == None)
    {
      assert n.Value() == spans[i] && Proper(spans[i]);
      assert i + 1 < |spans| ==> Neighbours(spans, i);
      Trim(n, n.low, low - 1, i, low, n.high);
    }

    /** Remove everything in `[low, high]`, dropping, trimming and splitting regions as needed. */
    method Remove(low: Word, high: Word)
      requires Valid() && Cut(low, high)
      modifies Repr
      ensures Valid() && fresh(Repr - old(Repr))
      ensures Removed(old(spans), spans, low, high)
    {
      var p, n, i := FindSlot(low);
      while n != last
        invariant Valid() && Repr == old(Repr) && Walked(n, i, low, high)
        invariant forall a :: At(spans, a) == At(old(spans), a) || (low <= a <= high && At(spans, a) == None)
        decreases |nodes| - i
      {
        var done;
        n, done, i := RemoveFrom(n, low, high, i);
        if done {
          return;
        }
      }
      assert spans[..i] == spans;
      ClearedIsUnowned(spans, low, high);
    }

    method Reset()
      requires Valid()
      modifies this`ptr
      ensures Valid() && ptr == nodes[1]
    {
      assert first.next == nodes[1];
      ptr := first.next;
    }

    /** The iterator has just delivered `r`, the region at position `k`, or null at the end of the list. */
    ghost predicate Here(r: Region?, k: nat)
      reads this, Repr
    {
      && k <= |spans| && |nodes| == |spans| + 2
      && (if k == |spans| then r == null else r == nodes[k + 1] && r in Repr && r.Value() == spans[k] && ptr == nodes[k + 2])
    }

    /** The region under the iterator, which stands at position `i`; null at the end of the list. */
    method Next(ghost i: nat) returns (r: Region?)
      requires Valid() && i <= |spans| && ptr == nodes[i + 1]
      modifies this`ptr
      ensures Valid() && Here(r, i)
    {
      if ptr == last {
        return null;
      }
      assert ptr.next == nodes[i + 2];
      r := ptr;
      ptr := ptr.next;
    }

    /** Take the whole region `r` out of the list. */
    method TakeWhole(r: Region, ghost k: nat)
      requires Framed() && Shape(nodes, spans) && k < |spans| && r == nodes[k + 1] && r.low <= r.high
      modifies r.prev`next, r.next`prev, this`spans, this`nodes
      ensures Framed() && Shape(nodes, spans) && k + 1 < |nodes| == |old(nodes)| - 1 && nodes[k + 1] == old(nodes)[k + 2]
      ensures spans == Carve(old(spans), k, r.low, r.high)
    {
      assert r.Value() == spans[k];
      CarveForms(spans, k, r.low, r.high);
      Unchain(r, k + 1);
    }

    /** Take the part below `low` out of the region `r`. */
    method TakeStart(r: Region, low: Word, ghost k: nat)
      requires Framed() && Shape(nodes, spans) && k < |spans| && r == nodes[k + 1] && r.low < low <= r.high
      modifies r`low, r`high, this`spans
      ensures Framed() && Shape(nodes, spans) && spans == Carve(old(spans), k, old(r.low), low - 1)
    {
      assert r.Value() == spans[k];
      CarveForms(spans, k, r.low, low - 1);
      Resize(r, low, r.high, k + 1);
    }

    /** Take the part above `high` out of the region `r`. */
    method TakeEnd(r: Region, high: Word, ghost k: nat)
      requires Framed() && Shape(nodes, spans) && k < |spans| && r == nodes[k + 1] && r.low <= high < r.high
      modifies r`low, r`high, this`spans
      ensures Framed() && Shape(nodes, spans) && spans == Carve(old(spans), k, high + 1, old(r.high))
    {
      assert r.Value() == spans[k];
      CarveForms(spans, k, high + 1, r.high);
      Resize(r, r.low, high, k + 1);
    }

    /** Put the new node `x` after `r`, which keeps `[r.low, high]`. */
    method SplitAfter(r: Region, high: Word, x: Region, ghost k: nat)
      requires Framed() && Shape(nodes, spans) && k < |spans| && r == nodes[k + 1] && x !in Repr
      modifies r, r.next`prev, x, this`nodes, this`spans, this`Repr
      ensures Framed() && Shape(nodes, spans) && Repr == old(Repr) + {x} && nodes == With(old(nodes), k + 2, x)
      ensures spans == With(old(spans), k + 1, old(x.Value()))[k := Span(old(r.low), high, old(r.owner))]
    {
      assert r.next == nodes[k + 2];
      LinkBehind(r, x, k);
      Resize(r, r.low, high, k + 1);
    }

    /** Links a new node in behind `r`. */
    method LinkBehind(r: Region, x: Region, ghost k: nat)
      requires Framed() && Shape(nodes, spans) && k < |spans| && r == nodes[k + 1] && x !in Repr
      modifies r`next, r.next`prev, x, this`nodes, this`spans, this`Repr
      ensures Framed() && Shape(nodes, spans) && Repr == old(Repr) + {x} && nodes == With(old(nodes), k + 2, x) && nodes[k + 1] == r
      ensures spans == With(old(spans), k + 1, old(x.Value()))
    {
      assert r.next == nodes[k + 2];
      Repr := Repr + {x};
      Link(x, r, r.next, k + 2);
    }

    /** Take the part between `high` and `low` out of the region `r`, with a new node for what lies above. */
    method TakeMiddle(r: Region, high: Word, low: Word, ghost k: nat)
      requires Framed() && Shape(nodes, spans) && k < |spans| && r == nodes[k + 1] && r.low <= high && high + 1 < low <= r.high
      modifies r, r.next`prev, this`nodes, this`spans, this`Repr
      ensures Framed() && Shape(nodes, spans) && fresh(Repr - old(Repr)) && k + 3 < |nodes| == |old(nodes)| + 1 && nodes[k + 3] == old(nodes)[k + 2]
      ensures spans == Carve(old(spans), k, high + 1, low - 1)
    {
      assert r.Value() == spans[k];
      CarveForms(spans, k, high + 1, low - 1);
      var x := new Region(low, r.high, r.owner);
      SplitAfter(r, high, x, k);
    }

    /** Take the aligned block at `addr` out of the region `r`, at position `k`, if that region holds it; `j` is
        where the region after `r` stands afterwards. */
    method CarveAt(r: Region, addr: Word, log2size: nat, tid: Word, ghost k: nat) returns (ret: Fpage, ghost j: nat)
      requires Framed() && Shape(nodes, spans) && k < |spans| && r == nodes[k + 1] && r.low <= r.high
      requires log2size < 32 && addr % Size(log2size) == 0
      modifies r, r.prev`next, r.next`prev, this`nodes, this`spans, this`Repr
      ensures Framed() && Shape(nodes, spans) && fresh(Repr - old(Repr)) && 1 <= j < |nodes| && nodes[j] == old(nodes)[k + 2] && |nodes| - j == |old(nodes)| - (k + 2)
      ensures ret.Fpage? <==> OwnerAllows(old(spans)[k].owner, tid) && Inside(old(spans)[k], addr, Size(log2size))
      ensures ret.Nilpage? ==> spans == old(spans) && nodes == old(nodes) && Repr == old(Repr)
      ensures ret.Fpage? ==> ret == Fpage(addr, log2size) && spans == Carve(old(spans), k, addr, addr + Size(log2size) - 1)
    {
      assert r.Value() == spans[k] && r.prev == nodes[k] && r.next == nodes[k + 2];
      CanAllocateExact(spans[k], addr, log2size, tid);
      if !CanAllocate(r.Value(), addr, log2size, tid) {
        return Nilpage, k + 2;
      }
      ret, j := CutAt(r, addr, log2size, k);
    }

    /** The four places at which a block can lie in its region. */
    method CutAt(r: Region, addr: Word, log2size: nat, ghost k: nat) returns (ret: Fpage, ghost j: nat)
      requires Framed() && Shape(nodes, spans) && k < |spans| && r == nodes[k + 1] && r.low <= r.high
      requires log2size < 32 && addr % Size(log2size) == 0 && Inside(spans[k], addr, Size(log2size))
      modifies r, r.prev`next, r.next`prev, this`nodes, this`spans, this`Repr
      ensures Framed() && Shape(nodes, spans) && fresh(Repr - old(Repr)) && 1 <= j < |nodes| && nodes[j] == old(nodes)[k + 2] && |nodes| - j == |old(nodes)| - (k + 2)
      ensures ret == Fpage(addr, log2size) && spans == Carve(old(spans), k, addr, addr + Size(log2size) - 1)
    {
      assert r.Value() == spans[k] && r.prev == nodes[k] && r.next == nodes[k + 2];
      BlockPlace(spans[k], addr, log2size);
      var size := Size(log2size);
      var lowA := LowAligned(r.Value(), size);
      var highA := HighAligned(r.Value(), size);
      j := k + 2;
      if lowA == r.low && addr == r.low {
        ret := Fpage(r.low, log2size);
        if Add(r.low, size) == Add(r.high, 1) {
          TakeWhole(r, k);
          j := k + 1;
        } else {
          TakeStart(r, Add(r.low, size), k);
        }
      } else if highA == r.high && Sub(Add(addr, size), 1) == r.high {
        ret := Fpage(Add(Sub(highA, size), 1), log2size);
        TakeEnd(r, Sub(r.high, size), k);
      } else {
        ret := Fpage(addr, log2size);
        TakeMiddle(r, Sub(addr, 1), Add(addr, size), k);
        j := k + 3;
      }
    }

    /** Take an aligned block from anywhere in the region `r`, at position `k`, if one fits. */
    method CarveAny(r: Region, log2size: nat, tid: Word, ghost k: nat) returns (ret: Fpage)
      requires Framed() && Shape(nodes, spans) && k < |spans| && r == nodes[k + 1] && r.low <= r.high && log2size < 32
      modifies r, r.prev`next, r.next`prev, this`nodes, this`spans, this`Repr
      ensures Framed() && Shape(nodes, spans) && fresh(Repr - old(Repr))
      ensures ret.Fpage? <==> OwnerAllows(old(spans)[k].owner, tid) && SomeBlockFits(old(spans)[k], Size(log2size))
      ensures ret.Nilpage? ==> spans == old(spans) && nodes == old(nodes) && Repr == old(Repr)
      ensures ret.Fpage? ==>
                && ret.log2size == log2size && ret.base % Size(log2size) == 0 && Inside(old(spans)[k], ret.base, Size(log2size))
                && spans == Carve(old(spans), k, ret.base, ret.base + Size(log2size) - 1)
    {
      assert r.Value() == spans[k] && r.prev == nodes[k] && r.next == nodes[k + 2];
      CanAllocateAnyExact(spans[k], log2size, tid);
      if !CanAllocateAny(r.Value(), log2size, tid) {
        return Nilpage;
      }
      ret := CutAny(r, log2size, k);
    }

    /** The block at the aligned start of the region, or else at its aligned end, or else behind its rounded-up start. */
    method CutAny(r: Region, log2size: nat, ghost k: nat) returns (ret: Fpage)
      requires Framed() && Shape(nodes, spans) && k < |spans| && r == nodes[k + 1] && r.low <= r.high && log2size < 32
      requires SomeBlockFits(spans[k], Size(log2size))
      modifies r, r.prev`next, r.next`prev, this`nodes, this`spans, this`Repr
      ensures Framed() && Shape(nodes, spans) && fresh(Repr - old(Repr))
      ensures ret.Fpage? && ret.log2size == log2size && ret.base % Size(log2size) == 0 && Inside(old(spans)[k], ret.base, Size(log2size))
      ensures spans == Carve(old(spans), k, ret.base, ret.base + Size(log2size) - 1)
    {
      assert r.Value() == spans[k] && r.prev == nodes[k] && r.next == nodes[k + 2];
      AnyPlace(spans[k], log2size);
      var size := Size(log2size);
      var lowA := LowAligned(r.Value(), size);
      var highA := HighAligned(r.Value(), size);
      if lowA == r.low {
        ret := Fpage(r.low, log2size);
        if Add(r.low, size) == Add(r.high, 1) {
          TakeWhole(r, k);
        } else {
          TakeStart(r, Add(r.low, size), k);
        }
      } else if highA == r.high {
        ret := Fpage(Add(Sub(highA, size), 1), log2size);
        TakeEnd(r, Sub(r.high, size), k);
      } else {
        ret := Fpage(lowA, log2size);
        TakeMiddle(r, Sub(lowA, 1), Add(lowA, size), k);
      }
    }

    /** Take the aligned block at `addr` out of the region `r` of this pool, if that region holds it. */
    method AllocateAt(r: Region, addr: Word, log2size: nat, tid: Word, ghost k: nat) returns (ret: Fpage, ghost j: nat)
      requires Valid() && k < |spans| && r == nodes[k + 1]
      requires 1 <= log2size < 32 && addr % Size(log2size) == 0
      modifies Repr
      ensures Valid() && fresh(Repr - old(Repr)) && ptr == old(ptr) && 1 <= j < |nodes| && nodes[j] == old(nodes)[k + 2] && |nodes| - j == |old(nodes)| - (k + 2)
      ensures ret.Fpage? <==> OwnerAllows(old(spans)[k].owner, tid) && Inside(old(spans)[k], addr, Size(log2size))
      ensures ret.Nilpage? ==> spans == old(spans) && nodes == old(nodes) && Repr == old(Repr)
      ensures ret.Fpage? ==> ret == Fpage(addr, log2size) && Removed(old(spans), spans, addr, addr + Size(log2size) - 1)
    {
      assert r.Value() == spans[k] && Proper(spans[k]) && r.prev == nodes[k] && r.next == nodes[k + 2];
      ret, j := CarveAt(r, addr, log2size, tid, k);
      if ret.Fpage? {
        CarveBlock(old(spans), k, addr, log2size);
      }
    }

    /** Take an aligned block from anywhere in the region `r` of this pool, if one fits. */
    method AllocateAny(r: Region, log2size: nat, tid: Word, ghost k: nat) returns (ret: Fpage)
      requires Valid() && k < |spans| && r == nodes[k + 1] && 1 <= log2size < 32
      modifies Repr
      ensures Valid() && fresh(Repr - old(Repr)) && ptr == old(ptr)
      ensures ret.Fpage? <==> OwnerAllows(old(spans)[k].owner, tid) && SomeBlockFits(old(spans)[k], Size(log2size))
      ensures ret.Nilpage? ==> spans == old(spans) && nodes == old(nodes) && Repr == old(Repr)
      ensures ret.Fpage? ==>
                && ret.log2size == log2size && ret.base % Size(log2size) == 0 && Inside(old(spans)[k], ret.base, Size(log2size))
                && Removed(old(spans), spans, ret.base, ret.base + Size(log2size) - 1)
    {
      assert r.Value() == spans[k] && Proper(spans[k]) && r.prev == nodes[k] && r.next == nodes[k + 2];
      ret := CarveAny(r, log2size, tid, k);
      if ret.Fpage? {
        CarveBlock(old(spans), k, ret.base, log2size);
      }
    }

    /** The walk over a free pool looks at one region. */
    method TryRegion(r: Region, addr: Word, log2size: nat, ghost k: nat) returns (fp: Fpage)
      requires Valid() && k < |spans| && r == nodes[k + 1] && 1 <= log2size < 32 && addr % Size(log2size) == 0
      modifies Repr
      ensures Valid() && fresh(Repr - old(Repr)) && ptr == old(ptr)
      ensures fp.Fpage? <==> Offers(old(spans), k, addr, Size(log2size), ANYTHREAD)
      ensures fp.Nilpage? ==> spans == old(spans) && nodes == old(nodes) && Repr == old(Repr)
      ensures fp.Fpage? ==> fp == Fpage(addr, log2size) && Removed(old(spans), spans, addr, addr + Size(log2size) - 1)
    {
      AlignedFits(addr, Size(log2size));
      assert r.Value() == spans[k];
      var addrHigh := addr + Size(log2size) - 1;
      fp := Nilpage;
      if r.low <= addrHigh && r.high >= addr {
        ghost var j;
        fp, j := AllocateAt(r, addr, log2size, ANYTHREAD, k);
      }
    }

    /** Take the aligned block at `addr` from the first region that can give it to anyone. */
    method TryAllocate(addr: Word, log2size: nat) returns (fp: Fpage)
      requires Valid() && 1 <= log2size < 32 && addr % Size(log2size) == 0
      modifies Repr
      ensures Valid() && fresh(Repr - old(Repr))
      ensures fp.Fpage? <==> exists i :: 0 <= i < |old(spans)| && Offers(old(spans), i, addr, Size(log2size), ANYTHREAD)
      ensures fp.Nilpage? ==> spans == old(spans)
      ensures fp.Fpage? ==> fp == Fpage(addr, log2size) && Removed(old(spans), spans, addr, addr + Size(log2size) - 1)
    {
      Reset();
      ghost var k: nat := 0;
      var r := Next(k);
      while r != null
        invariant Valid() && Repr == old(Repr) && spans == old(spans) && k <= |spans|
        invariant Here(r, k)
        invariant forall i :: 0 <= i < k ==> !Offers(spans, i, addr, Size(log2size), ANYTHREAD)
        decreases |spans| - k
      {
        fp := TryRegion(r, addr, log2size, k);
        if fp.Fpage? {
          assert Offers(old(spans), k, addr, Size(log2size), ANYTHREAD);
          return;
        }
        k := k + 1;
        r := Next(k);
      }
      return Nilpage;
    }

    /** Is the aligned block at `addr` inside a region that `tid` may use? */
    method HoldsFor(addr: Word, log2size: nat, tid: Word) returns (found: bool)
      requires Valid() && 1 <= log2size < 32 && addr % Size(log2size) == 0
      modifies this`ptr
      ensures Valid()
      ensures found <==> exists i :: 0 <= i < |spans| && Offers(spans, i, addr, Size(log2size), tid)
    {
      Reset();
      ghost var k: nat := 0;
      var r := Next(k);
      while r != null
        invariant Valid() && k <= |spans|
        invariant Here(r, k)
        invariant forall i :: 0 <= i < k ==> !Offers(spans, i, addr, Size(log2size), tid)
        decreases |spans| - k
      {
        assert Proper(spans[k]);
        CanAllocateExact(spans[k], addr, log2size, tid);
        if CanAllocate(r.Value(), addr, log2size, tid) {
          assert Offers(spans, k, addr, Size(log2size), tid);
          return true;
        }
        k := k + 1;
        r := Next(k);
      }
      return false;
    }

    /** The test the slow path makes on one region. */
    method GivesPage(r: Region, a: Word, log2size: nat, tid: Word, ghost k: nat) returns (b: bool)
      requires Valid() && k < |spans| && r.Value() == spans[k]
      requires 1 <= log2size < 32 && a % Size(log2size) == 0
      ensures b <==> OffersPage(spans, k, a, Size(log2size), tid)
      ensures b ==> At(spans, a).Some?
    {
      assert Proper(spans[k]);
      CanAllocateExact(spans[k], a, log2size, tid);
      assert Covers(spans[k], a) ==> At(spans, a).Some?;
      var aEnd := Add(a, Size(log2size));
      b := r.low <= aEnd && r.high >= a && CanAllocate(r.Value(), a, log2size, tid);
    }

    /** One region of the slow path: if it gives `tid` the page and `take` is set, take the page out of it. */
    method Visit(r: Region, a: Word, log2size: nat, tid: Word, take: bool, ghost k: nat) returns (gives: bool, ghost next: nat)
      requires Valid() && k < |spans| && Here(r, k)
      requires 1 <= log2size < 32 && a % Size(log2size) == 0
      modifies Repr
      ensures Valid() && fresh(Repr - old(Repr))
      ensures next <= |spans| && ptr == nodes[next + 1] && |nodes| - next < |old(nodes)| - k
      ensures gives <==> OffersPage(old(spans), k, a, Size(log2size), tid)
      ensures gives ==> At(old(spans), a).Some?
      ensures if gives && take then Removed(old(spans), spans, a, a + Size(log2size) - 1) else next == k + 1 && spans == old(spans)
    {
      next := k + 1;
      gives := GivesPage(r, a, log2size, tid, k);
      if gives && take {
        var taken;
        taken, next := AllocateAt(r, a, log2size, tid, k);
        next := next - 1;
      }
    }

    /** One page of the slow path in one pool: look for a region that gives `tid` the page and, if asked to, take it. */
    method PageStep(a: Word, log2size: nat, tid: Word, take: bool) returns (found: bool)
      requires Valid() && 1 <= log2size < 32 && a % Size(log2size) == 0
      modifies Repr
      ensures Valid() && fresh(Repr - old(Repr))
      ensures found <==> exists i :: 0 <= i < |old(spans)| && OffersPage(old(spans), i, a, Size(log2size), tid)
      ensures if found && take then Removed(old(spans), spans, a, a + Size(log2size) - 1) else spans == old(spans)
    {
      found := false;
      Reset();
      ghost var k: nat := 0;
      var r := Next(k);
      while r != null
        invariant Valid() && fresh(Repr - old(Repr)) && Here(r, k)
        invariant Stepped(old(spans), spans, k, a, Size(log2size), tid, take, found)
        decreases |nodes| - k
      {
        ghost var was, at, R := spans, k, Repr;
        var gives;
        gives, k := Visit(r, a, log2size, tid, take, k);
        assert fresh(Repr - R) && Repr - old(Repr) <= Repr - R + (R - old(Repr));
        SteppedNext(old(spans), was, spans, at, k, a, Size(log2size), tid, take, found, gives);
        found := found || gives;
        r := Next(k);
      }
    }

    /** Take an aligned block from the first region in which one fits. */
    method TryAllocateAny(log2size: nat) returns (fp: Fpage)
      requires Valid() && 1 <= log2size < 32
      modifies Repr
      ensures Valid() && fresh(Repr - old(Repr))
      ensures fp.Fpage? <==> exists i :: 0 <= i < |old(spans)| && OffersAny(old(spans), i, Size(log2size))
      ensures fp.Nilpage? ==> spans == old(spans)
      ensures fp.Fpage? ==>
                && fp.log2size == log2size && fp.base % Size(log2size) == 0
                && (exists i :: 0 <= i < |old(spans)| && Offers(old(spans), i, fp.base, Size(log2size), ANYTHREAD))
                && Removed(old(spans), spans, fp.base, fp.base + Size(log2size) - 1)
    {
      Reset();
      ghost var k: nat := 0;
      var r := Next(k);
      while r != null
        invariant Valid() && Repr == old(Repr) && spans == old(spans) && k <= |spans|
        invariant Here(r, k)
        invariant forall i :: 0 <= i < k ==> !OffersAny(spans, i, Size(log2size))
        decreases |spans| - k
      {
        fp := AllocateAny(r, log2size, ANYTHREAD, k);
        if fp.Fpage? {
          assert OffersAny(old(spans), k, Size(log2size));
          assert Offers(old(spans), k, fp.base, Size(log2size), ANYTHREAD);
          return;
        }
        k := k + 1;
        r := Next(k);
      }
      return Nilpage;
    }
  }
}
