/** The search for a free record in a fixed table, going round from a cursor that remembers where the last search ended.
    The task server has this loop three times: for threads, for address spaces and for listeners. */
module Slots {
  import opened Words

  /** How a search ends: at a free record; with a panic; outside the table; or never. */
  datatype Slot =
    | Found(i: nat)
    | Exhausted
    | Overrun
    | Endless

  /** The slot reached after `k` steps. */
  function Nth(cursor: nat, k: nat, m: nat): nat
    requires cursor < m && k < m
  {
    if cursor + k < m then cursor + k else cursor + k - m
  }

  lemma StepOn(cursor: nat, k: nat, m: nat)
    requires cursor < m && k < m
    ensures (Nth(cursor, k, m) + 1) % m == if k + 1 < m then Nth(cursor, k + 1, m) else cursor
  {
    var x := Nth(cursor, k, m) + 1;
    if x < m {
      ModUnique(x, 0, x, m);
    } else {
      ModUnique(x, 1, 0, m);
    }
  }

  /** How many slots the search looks at: the one before the cursor is not among them, unless the cursor is 0. */
  function Reach(cursor: nat, m: nat): nat
    requires cursor < m
  {
    if cursor == 0 then m else m - 1
  }

  /** A search from `cursor` gets to a free slot. */
  ghost predicate Reaches(free: int -> bool, m: nat, cursor: nat) {
    cursor < m && exists k {:trigger Nth(cursor, k, m)} :: 0 <= k < Reach(cursor, m) && free(Nth(cursor, k, m))
  }

  /** Slot `i` is the first free one that a search from `cursor` gets to. */
  ghost predicate FirstFrom(free: int -> bool, m: nat, cursor: nat, i: int) {
    && cursor < m && free(i)
    && exists k {:trigger Nth(cursor, k, m)} :: 0 <= k < Reach(cursor, m) && i == Nth(cursor, k, m)
         && forall j {:trigger Nth(cursor, j, m)} :: 0 <= j < k ==> !free(Nth(cursor, j, m))
  }

  /** A search gets to a free slot exactly if there is one that is not right before the cursor; from 0 it gets to all. */
  lemma ReachesAll(free: int -> bool, m: nat, cursor: nat)
    requires cursor < m
    ensures Reaches(free, m, cursor) <==> exists i :: 0 <= i < m && free(i) && i != cursor - 1
  {
    if i :| 0 <= i < m && free(i) && i != cursor - 1 {
      var k := if i >= cursor then i - cursor else i + m - cursor;
      assert Nth(cursor, k, m) == i;
    }
    if Reaches(free, m, cursor) {
      var k :| 0 <= k < Reach(cursor, m) && free(Nth(cursor, k, m));
      assert 0 <= Nth(cursor, k, m) < m && Nth(cursor, k, m) != cursor - 1;
    }
  }

  /** Slot `i` comes before slot `j` when one goes round from the cursor. */
  predicate Sooner(cursor: int, i: int, j: int) {
    if i >= cursor then j < cursor || i < j else j < cursor && i < j
  }

  /** The slot that is found is the first free one, going round from the cursor. */
  lemma FirstFromIs(free: int -> bool, m: nat, cursor: nat, i: int)
    requires FirstFrom(free, m, cursor, i)
    ensures 0 <= i < m && free(i) && i != cursor - 1
    ensures forall j {:trigger free(j)} :: 0 <= j < m && free(j) && j != i ==> Sooner(cursor, i, j)
  {
    var k :| 0 <= k < Reach(cursor, m) && i == Nth(cursor, k, m) && forall j {:trigger Nth(cursor, j, m)} :: 0 <= j < k ==> !free(Nth(cursor, j, m));
    forall j | 0 <= j < m && free(j) && j != i
      ensures Sooner(cursor, i, j)
    {
      var l := if j >= cursor then j - cursor else j + m - cursor;
      assert Nth(cursor, l, m) == j;
    }
  }

  /** A free slot under the cursor is the one that is found. */
  lemma UnderCursor(free: int -> bool, m: nat, cursor: nat)
    requires cursor < m && 1 < m && free(cursor)
    ensures Reaches(free, m, cursor)
    ensures forall i {:trigger FirstFrom(free, m, cursor, i)} :: FirstFrom(free, m, cursor, i) ==> i == cursor
  {
    assert Nth(cursor, 0, m) == cursor;
  }

  /** The slot found is the first free one that the search gets to; without one the search panics, unless it never
      ends because the cursor is 0. A cursor at the end of the table is dereferenced. */
  method Scan(free: int -> bool, m: nat, cursor: nat) returns (r: Slot)
    requires 0 < m < WORD && cursor <= m
    ensures r.Found? ==> r.i < m && FirstFrom(free, m, cursor, r.i)
    ensures r.Found? <==> Reaches(free, m, cursor)
    ensures r.Overrun? <==> cursor == m
    ensures r.Endless? <==> cursor == 0 && !Reaches(free, m, cursor)
  {
    var i := cursor;
    ghost var k := 0;
    while i != Sub(cursor, 1)
      invariant k < m && i == if cursor < m then Nth(cursor, k, m) else m
      invariant cursor < m ==> forall j {:trigger Nth(cursor, j, m)} :: 0 <= j < k ==> !free(Nth(cursor, j, m))
      decreases m - k
    {
      if i == m {
        return Overrun;
      }
      if free(i) {
        return Found(i);
      }
      StepOn(cursor, k, m);
      i := (i + 1) % m;
      if i == cursor {
        // nothing has changed since the search began
        return Endless;
      }
      k := k + 1;
    }
    r := Exhausted;
  }
}
