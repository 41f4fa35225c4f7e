/** What a sigma0 region list denotes.

    A pool is a list of inclusive, owned address ranges. This module says when such a list is in the
    form the memory manager keeps (sorted, disjoint, aligned, maximally coalesced), which map from
    addresses to owners it denotes, and how the two edits made by the manager change that map. */
module Spans {
  import opened Words
  import opened Wrappers
  import opened Sequences

  datatype Span = Span(low: Word, high: Word, owner: Word)

  predicate Covers(s: Span, a: int) {
    s.low <= a <= s.high
  }

  /** A non-empty range that neither sentinel can touch. Every range of whole pages is one. */
  predicate Proper(s: Span) {
    s.low <= s.high && s.low != 1 && s.high != MAX - 1
  }

  /** What lies around this range is proper. */
  predicate Cut(lo: Word, hi: Word) {
    lo <= hi && lo != MAX && hi != 0
  }

  /** Sorted and disjoint. */
  ghost predicate Sorted(ss: seq<Span>) {
    && (forall i :: 0 <= i < |ss| ==> ss[i].low <= ss[i].high)
    && (forall i, j :: 0 <= i < j < |ss| ==> ss[i].high < ss[j].low)
  }

  /** `x` may stand directly before `y` in a pool list: below it, and not joinable with it. */
  predicate Before(x: Span, y: Span) {
    x.high < y.low && (x.owner == y.owner ==> x.high + 1 < y.low)
  }

  /** The form the pools keep: aligned, ascending, and no two neighbours joinable. */
  ghost predicate WellFormed(ss: seq<Span>)
  {
    && (forall i :: 0 <= i < |ss| ==> Proper(ss[i]))
    && (forall i :: 0 <= i < |ss| - 1 ==> Neighbours(ss, i))
  }

  predicate Neighbours(ss: seq<Span>, i: nat)
    requires i < |ss| - 1
  {
    Before(ss[i], ss[i + 1])
  }

  lemma WellFormedIsSorted(ss: seq<Span>)
    requires WellFormed(ss)
    ensures Sorted(ss)
  {
    forall i, j | 0 <= i < j < |ss|
      ensures ss[i].high < ss[j].low
    {
      WellFormedAscends(ss, i, j);
    }
  }

  lemma {:induction false} WellFormedAscends(ss: seq<Span>, i: nat, j: nat)
    requires WellFormed(ss) && i < j < |ss|
    ensures ss[i].high < ss[j].low
    decreases j
  {
    assert Neighbours(ss, j - 1);
    if i + 1 < j {
      WellFormedAscends(ss, i, j - 1);
      assert Proper(ss[j - 1]);
    }
  }

  /** The owner recorded for address `a`, if any. */
  ghost function At(ss: seq<Span>, a: int): (o: Option<Word>)
    ensures o.Some? <==> exists i :: 0 <= i < |ss| && Covers(ss[i], a)
  {
    if i :| 0 <= i < |ss| && Covers(ss[i], a) then Some(ss[i].owner) else None
  }

  /** `tt` is `ss` without the range `[lo, hi]`. */
  ghost predicate Removed(ss: seq<Span>, tt: seq<Span>, lo: int, hi: int) {
    forall a :: At(tt, a) == if lo <= a <= hi then None else At(ss, a)
  }

  /** `tt` is `ss` with the range `[lo, hi]` added for `owner`. */
  ghost predicate Added(ss: seq<Span>, tt: seq<Span>, lo: int, hi: int, owner: Word) {
    forall a :: At(tt, a) == if lo <= a <= hi then Some(owner) else At(ss, a)
  }

  ghost predicate Unowned(ss: seq<Span>, lo: int, hi: int) {
    forall a :: lo <= a <= hi ==> At(ss, a) == None
  }

  lemma AtIs(ss: seq<Span>, i: nat, a: int)
    requires Sorted(ss) && i < |ss| && Covers(ss[i], a)
    ensures At(ss, a) == Some(ss[i].owner)
  {
  }

  // ----- replacing a slice -----

  lemma SpliceShape(ss: seq<Span>, d: nat, u: nat, m: seq<Span>)
    requires d <= u <= |ss|
    requires WellFormed(ss) && WellFormed(m)
    requires d > 0 && |m| > 0 ==> Before(ss[d - 1], m[0])
    requires u < |ss| && |m| > 0 ==> Before(m[|m| - 1], ss[u])
    requires |m| == 0 && 0 < d && u < |ss| ==> Before(ss[d - 1], ss[u])
    ensures WellFormed(Splice(ss, d, u, m))
  {
    var r := Splice(ss, d, u, m);
    var e := d + |m|;
    forall i | 0 <= i < |r| - 1
      ensures Neighbours(r, i)
    {
      var j := i + 1;
      assert i < |ss| - 1 ==> Neighbours(ss, i);
      if j < d {
        assert r[i] == ss[i] && r[j] == ss[j];
      } else if j == d {
        assert r[i] == ss[d - 1];
      } else if j < e {
        assert Neighbours(m, i - d);
        assert r[i] == m[i - d] && r[j] == m[j - d];
      } else if j > e {
        assert Neighbours(ss, i - e + u);
        assert r[i] == ss[i - e + u] && r[j] == ss[j - e + u];
      }
    }
  }

  ghost predicate CoveredIn(ss: seq<Span>, d: nat, u: nat, a: int)
    requires d <= u <= |ss|
  {
    exists i :: d <= i < u && Covers(ss[i], a)
  }

  /** An address of the result is in the new part, or in an old span outside the replaced slice. */
  lemma SpliceSource(ss: seq<Span>, d: nat, u: nat, m: seq<Span>, i: nat, a: int)
    requires d <= u <= |ss| && Sorted(ss) && Sorted(m)
    requires i < |Splice(ss, d, u, m)| && Covers(Splice(ss, d, u, m)[i], a)
    ensures var o := Some(Splice(ss, d, u, m)[i].owner); At(m, a) == o || (At(ss, a) == o && !CoveredIn(ss, d, u, a))
  {
  }

  lemma SpliceDenotes(ss: seq<Span>, d: nat, u: nat, m: seq<Span>, a: int)
    requires d <= u <= |ss| && Sorted(ss) && Sorted(m) && Sorted(Splice(ss, d, u, m))
    ensures At(m, a).Some? ==> At(Splice(ss, d, u, m), a) == At(m, a)
    ensures At(m, a).None? && CoveredIn(ss, d, u, a) ==> At(Splice(ss, d, u, m), a) == None
    ensures At(m, a).None? && !CoveredIn(ss, d, u, a) ==> At(Splice(ss, d, u, m), a) == At(ss, a)
  {
    var r := Splice(ss, d, u, m);
    forall i | 0 <= i < |ss| && (i < d || u <= i) && Covers(ss[i], a)
      ensures At(r, a).Some?
    {
      assert Covers(r[if i < d then i else i - u + d + |m|], a);
    }
    if i :| 0 <= i < |m| && Covers(m[i], a) {
      AtIs(m, i, a);
      AtIs(r, d + i, a);
    } else if i :| 0 <= i < |r| && Covers(r[i], a) {
      AtIs(r, i, a);
      SpliceSource(ss, d, u, m, i, a);
    }
  }

  // ----- taking a range out of one span -----

  /** What is left of `s` below `lo` and above `hi`. */
  function Remains(s: Span, lo: Word, hi: Word): seq<Span>
    requires s.low <= lo <= hi <= s.high
  {
    if s.low < lo then
      if hi < s.high then [Span(s.low, lo - 1, s.owner), Span(hi + 1, s.high, s.owner)]
      else [Span(s.low, lo - 1, s.owner)]
    else if hi < s.high then [Span(hi + 1, s.high, s.owner)]
    else []
  }

  function Carve(ss: seq<Span>, k: nat, lo: Word, hi: Word): seq<Span>
    requires k < |ss| && ss[k].low <= lo <= hi <= ss[k].high
  {
    Splice(ss, k, k + 1, Remains(ss[k], lo, hi))
  }

  /** The edits that carve a range out of a list are one splice. */
  lemma CarveForms(ss: seq<Span>, k: nat, lo: Word, hi: Word)
    requires k < |ss| && ss[k].low <= lo <= hi <= ss[k].high
    ensures var m := Remains(ss[k], lo, hi);
            Carve(ss, k, lo, hi) ==
            if |m| == 0 then Without(ss, k)
            else if |m| == 1 then ss[k := m[0]]
            else With(ss, k + 1, m[1])[k := m[0]]
  {
  }

  /** Carving keeps the form of the list and removes exactly the range. */
  lemma CarveCorrect(ss: seq<Span>, k: nat, lo: Word, hi: Word)
    requires WellFormed(ss)
    requires k < |ss| && ss[k].low <= lo <= hi <= ss[k].high
    requires Cut(lo, hi) || (lo == ss[k].low && hi == ss[k].high)
    ensures WellFormed(Carve(ss, k, lo, hi))
    ensures Removed(ss, Carve(ss, k, lo, hi), lo, hi)
  {
    CarveShape(ss, k, lo, hi);
    WellFormedIsSorted(ss);
    WellFormedIsSorted(Carve(ss, k, lo, hi));
    forall a: int
      ensures At(Carve(ss, k, lo, hi), a) == if lo <= a <= hi then None else At(ss, a)
    {
      CarveDenotes(ss, k, lo, hi, a);
    }
  }

  lemma CarveShape(ss: seq<Span>, k: nat, lo: Word, hi: Word)
    requires WellFormed(ss)
    requires k < |ss| && ss[k].low <= lo <= hi <= ss[k].high
    requires Cut(lo, hi) || (lo == ss[k].low && hi == ss[k].high)
    ensures WellFormed(Carve(ss, k, lo, hi))
  {
    assert Proper(ss[k]);
    assert k > 0 ==> Neighbours(ss, k - 1);
    assert k + 1 < |ss| ==> Neighbours(ss, k);
    assert 0 < k && k + 1 < |ss| ==> Before(ss[k - 1], ss[k + 1]);
    SpliceShape(ss, k, k + 1, Remains(ss[k], lo, hi));
  }

  lemma CarveDenotes(ss: seq<Span>, k: nat, lo: Word, hi: Word, a: int)
    requires Sorted(ss) && k < |ss| && ss[k].low <= lo <= hi <= ss[k].high
    requires Sorted(Carve(ss, k, lo, hi))
    ensures At(Carve(ss, k, lo, hi), a) == if lo <= a <= hi then None else At(ss, a)
  {
    var m := Remains(ss[k], lo, hi);
    SpliceDenotes(ss, k, k + 1, m, a);
    if Covers(ss[k], a) {
      AtIs(ss, k, a);
      assert a < lo ==> Covers(m[0], a);
      assert a > hi ==> Covers(m[|m| - 1], a);
    }
  }

  // ----- adding a range -----

  /** Position `k` is where a range starting at `low` belongs: exactly the spans before it end below `low`. */
  ghost predicate Slot(ss: seq<Span>, k: int, low: Word) {
    0 <= k <= |ss| && (forall i :: 0 <= i < k ==> ss[i].high < low) && (k < |ss| ==> low <= ss[k].high)
  }

  /** `s` overlaps no span of `ss`. */
  ghost predicate Apart(ss: seq<Span>, s: Span) {
    forall i :: 0 <= i < |ss| ==> ss[i].high < s.low || s.high < ss[i].low
  }

  predicate JoinsBelow(ss: seq<Span>, k: nat, s: Span)
    requires k <= |ss|
  {
    k > 0 && ss[k - 1].owner == s.owner && ss[k - 1].high + 1 == s.low
  }

  predicate JoinsAbove(ss: seq<Span>, k: nat, s: Span)
    requires k <= |ss|
  {
    k < |ss| && ss[k].owner == s.owner && s.high + 1 == ss[k].low
  }

  /** `s` joined with the neighbours it touches at position `k`. */
  function Joined(ss: seq<Span>, k: nat, s: Span): Span
    requires k <= |ss|
  {
    Span(if JoinsBelow(ss, k, s) then ss[k - 1].low else s.low, if JoinsAbove(ss, k, s) then ss[k].high else s.high, s.owner)
  }

  /** `ss` with `s` put at position `k` and joined with the neighbours it touches. */
  function Inserted(ss: seq<Span>, k: nat, s: Span): seq<Span>
    requires k <= |ss|
  {
    Splice(ss, if JoinsBelow(ss, k, s) then k - 1 else k, if JoinsAbove(ss, k, s) then k + 1 else k, [Joined(ss, k, s)])
  }

  /** A range none of whose addresses is owned overlaps no span. */
  lemma UnownedIsApart(ss: seq<Span>, s: Span)
    requires Sorted(ss) && s.low <= s.high && Unowned(ss, s.low, s.high)
    ensures Apart(ss, s)
  {
    forall i | 0 <= i < |ss|
      ensures ss[i].high < s.low || s.high < ss[i].low
    {
      var a := if ss[i].low < s.low then s.low else ss[i].low;
      assert Covers(ss[i], a) ==> At(ss, a).Some?;
    }
  }

  /** No span meets `[low, high]`. */
  ghost predicate Cleared(ss: seq<Span>, low: Word, high: Word) {
    forall j :: 0 <= j < |ss| ==> ss[j].high < low || high < ss[j].low
  }

  lemma SpanOwns(ss: seq<Span>, i: nat)
    requires WellFormed(ss) && i < |ss|
    ensures forall a :: Covers(ss[i], a) ==> At(ss, a) == Some(ss[i].owner)
  {
    WellFormedIsSorted(ss);
    forall a | Covers(ss[i], a)
      ensures At(ss, a) == Some(ss[i].owner)
    {
      AtIs(ss, i, a);
    }
  }

  lemma ClearedIsUnowned(ss: seq<Span>, low: Word, high: Word)
    requires Cleared(ss, low, high)
    ensures Unowned(ss, low, high)
  {
  }

  lemma ClearedBeyond(ss: seq<Span>, i: nat, low: Word, high: Word)
    requires WellFormed(ss) && i < |ss| && Cleared(ss[..i], low, high) && high < ss[i].low
    ensures Cleared(ss, low, high)
  {
    WellFormedIsSorted(ss);
    forall j | 0 <= j < |ss|
      ensures ss[j].high < low || high < ss[j].low
    {
      if j < i {
        assert ss[j] == ss[..i][j];
      }
    }
  }

  /** Inserting a range that overlaps no other keeps the form of the list and adds exactly that range. */
  lemma InsertedCorrect(ss: seq<Span>, k: nat, s: Span)
    requires WellFormed(ss) && Proper(s)
    requires Slot(ss, k, s.low) && Apart(ss, s)
    ensures WellFormed(Inserted(ss, k, s))
    ensures Added(ss, Inserted(ss, k, s), s.low, s.high, s.owner)
  {
    InsertedShape(ss, k, s);
    WellFormedIsSorted(ss);
    WellFormedIsSorted(Inserted(ss, k, s));
    forall a: int
      ensures At(Inserted(ss, k, s), a) == if Covers(s, a) then Some(s.owner) else At(ss, a)
    {
      InsertedDenotes(ss, k, s, a);
    }
  }

  lemma InsertedShape(ss: seq<Span>, k: nat, s: Span)
    requires WellFormed(ss) && Proper(s)
    requires Slot(ss, k, s.low) && Apart(ss, s)
    ensures WellFormed(Inserted(ss, k, s))
  {
    var d := if JoinsBelow(ss, k, s) then k - 1 else k;
    var u := if JoinsAbove(ss, k, s) then k + 1 else k;
    assert k > 0 ==> Proper(ss[k - 1]);
    assert k < |ss| ==> Proper(ss[k]);
    assert k > 0 && k < |ss| ==> Neighbours(ss, k - 1);
    assert k > 1 ==> Neighbours(ss, k - 2);
    assert k + 1 < |ss| ==> Neighbours(ss, k);
    assert d > 0 ==> Before(ss[d - 1], Joined(ss, k, s));
    assert u < |ss| ==> Before(Joined(ss, k, s), ss[u]);
    SpliceShape(ss, d, u, [Joined(ss, k, s)]);
  }

  lemma InsertedDenotes(ss: seq<Span>, k: nat, s: Span, a: int)
    requires Slot(ss, k, s.low) && Apart(ss, s) && s.low <= s.high
    requires Sorted(ss) && Sorted(Inserted(ss, k, s))
    ensures At(Inserted(ss, k, s), a) == if Covers(s, a) then Some(s.owner) else At(ss, a)
  {
    var j := Joined(ss, k, s);
    SpliceDenotes(ss, if JoinsBelow(ss, k, s) then k - 1 else k, if JoinsAbove(ss, k, s) then k + 1 else k, [j], a);
    if Covers(j, a) {
      AtIs([j], 0, a);
      if !Covers(s, a) {
        JoinedDenotes(ss, k, s, a);
      }
    } else {
      assert !Covers(s, a);
    }
  }

  lemma JoinedDenotes(ss: seq<Span>, k: nat, s: Span, a: int)
    requires k <= |ss| && Sorted(ss) && Covers(Joined(ss, k, s), a) && !Covers(s, a)
    ensures At(ss, a) == Some(s.owner)
  {
  }

  // ----- joining two ranges -----

  /** The sentinels' values. */
  const FIRST := Span(0, 0, 0)
  const LAST := Span(MAX, MAX, 0)

  /** The test made on wrapping words before one region takes over another. */
  predicate Touches(s: Span, r: Span) {
    s.owner == r.owner && ((s.low == Add(r.high, 1) && s.low != 0) || (Add(s.high, 1) == r.low && r.low != 0))
  }

  function Union(s: Span, r: Span): Span {
    if s.low == Add(r.high, 1) && s.low != 0 then s.(low := r.low) else s.(high := r.high)
  }

  function Below(ss: seq<Span>, k: nat): Span
    requires k <= |ss|
  {
    if k == 0 then FIRST else ss[k - 1]
  }

  function Above(ss: seq<Span>, k: nat): Span
    requires k <= |ss|
  {
    if k == |ss| then LAST else ss[k]
  }

  /** The sentinels take no part in joining `s` at position `k`. */
  predicate KeepsOff(ss: seq<Span>, k: nat, s: Span)
    requires k <= |ss|
  {
    && (k == 0 ==> !Touches(FIRST, s))
    && (k == |ss| ==> !Touches(LAST, s) && !Touches(Union(Below(ss, k), s), LAST))
  }

  /** The list after the pool's insertion: the node below takes over `s` and then the node above, or the node above
      takes over `s`, or `s` is linked between them. */
  function Placed(ss: seq<Span>, k: nat, s: Span): seq<Span>
    requires k <= |ss| && KeepsOff(ss, k, s)
  {
    if Touches(Below(ss, k), s) then
      var u := Union(ss[k - 1], s);
      if Touches(u, Above(ss, k)) then Without(ss[k - 1 := u][k - 1 := Union(u, ss[k])], k) else ss[k - 1 := u]
    else if Touches(Above(ss, k), s) then ss[k := Union(ss[k], s)]
    else With(ss, k, s)
  }

  /** Deciding the joins on wrapping words places `s` exactly where its neighbours call for. */
  lemma PlacedIsInserted(ss: seq<Span>, k: nat, s: Span)
    requires WellFormed(ss) && Proper(s) && Slot(ss, k, s.low) && Apart(ss, s)
    ensures KeepsOff(ss, k, s) && Placed(ss, k, s) == Inserted(ss, k, s)
  {
  }

  // ----- blocks -----

  /** Every address of the block belongs to `owner`. */
  ghost predicate Fills(ss: seq<Span>, addr: int, size: int, owner: Word) {
    forall a :: addr <= a < addr + size ==> At(ss, a) == Some(owner)
  }

  /** What follows a region belongs to someone else, or to nobody. */
  lemma NextIsOther(ss: seq<Span>, i: nat)
    requires WellFormed(ss) && i < |ss|
    ensures At(ss, ss[i].high + 1) != Some(ss[i].owner)
  {
    WellFormedIsSorted(ss);
    assert i + 1 < |ss| ==> Neighbours(ss, i);
    forall j | 0 <= j < |ss| && Covers(ss[j], ss[i].high + 1)
      ensures ss[j].owner != ss[i].owner
    {
      assert ss[i + 1].low <= ss[i + 1].high;
    }
  }

  /** A block that belongs to one owner throughout lies inside one region: that is what coalescing is for. */
  lemma FilledIsInside(ss: seq<Span>, addr: int, size: int, owner: Word) returns (i: nat)
    requires WellFormed(ss) && size > 0 && Fills(ss, addr, size, owner)
    ensures i < |ss| && ss[i].low <= addr && addr + size - 1 <= ss[i].high && ss[i].owner == owner
  {
    WellFormedIsSorted(ss);
    assert At(ss, addr) == Some(owner);
    i :| 0 <= i < |ss| && Covers(ss[i], addr);
    AtIs(ss, i, addr);
    NextIsOther(ss, i);
  }

  lemma InsideIsFilled(ss: seq<Span>, i: nat, addr: int, size: int)
    requires WellFormed(ss) && i < |ss| && ss[i].low <= addr && addr + size - 1 <= ss[i].high
    ensures Fills(ss, addr, size, ss[i].owner)
  {
    SpanOwns(ss, i);
  }

  // ----- the list is determined by what it denotes -----

  ghost predicate SameMeaning(ss: seq<Span>, tt: seq<Span>) {
    forall a {:trigger At(ss, a)} {:trigger At(tt, a)} :: At(ss, a) == At(tt, a)
  }

  /** Past a common beginning, the next region of one list cannot begin below that of the other. */
  lemma NextBegins(ss: seq<Span>, tt: seq<Span>, k: nat)
    requires WellFormed(ss) && WellFormed(tt) && SameMeaning(ss, tt)
    requires k < |ss| && k <= |tt| && ss[..k] == tt[..k]
    ensures k < |tt| && tt[k].low <= ss[k].low
  {
    WellFormedIsSorted(ss);
    WellFormedIsSorted(tt);
    AtIs(ss, k, ss[k].low);
    forall j | 0 <= j < k
      ensures !Covers(tt[j], ss[k].low)
    {
      assert ss[..k][j] == tt[..k][j];
    }
    assert At(tt, ss[k].low).Some?;
    var j :| 0 <= j < |tt| && Covers(tt[j], ss[k].low);
  }

  /** A region does not go on past the end of the region of the other list that begins with it. */
  lemma NextEnds(ss: seq<Span>, tt: seq<Span>, k: nat)
    requires WellFormed(ss) && WellFormed(tt) && SameMeaning(ss, tt)
    requires k < |ss| && k < |tt| && ss[k].low == tt[k].low
    ensures ss[k].owner == tt[k].owner && ss[k].high <= tt[k].high
  {
    WellFormedIsSorted(ss);
    WellFormedIsSorted(tt);
    AtIs(ss, k, ss[k].low);
    AtIs(tt, k, tt[k].low);
    NextIsOther(tt, k);
    SpanOwns(ss, k);
    assert At(ss, tt[k].high + 1) == At(tt, tt[k].high + 1);
  }

  /** Two lists in the form the pools keep that denote the same map are the same list: there is one way to hold a given
      ownership. */
  lemma {:induction false} Canonical(ss: seq<Span>, tt: seq<Span>, k: nat)
    requires WellFormed(ss) && WellFormed(tt) && SameMeaning(ss, tt)
    requires k <= |ss| && k <= |tt| && ss[..k] == tt[..k]
    ensures ss == tt
    decreases |ss| - k
  {
    if k < |ss| || k < |tt| {
      if k < |ss| {
        NextBegins(ss, tt, k);
      }
      NextBegins(tt, ss, k);
      NextBegins(ss, tt, k);
      NextEnds(ss, tt, k);
      NextEnds(tt, ss, k);
      assert ss[k] == tt[k];
      assert ss[..k + 1] == ss[..k] + [ss[k]] && tt[..k + 1] == tt[..k] + [tt[k]];
      Canonical(ss, tt, k + 1);
    } else {
      assert ss[..k] == ss && tt[..k] == tt;
    }
  }
}
