/** Singly linked lists threaded through a table by index, and tables whose records are spread over several such lists. */
module Chains {
  import opened Words
  import opened Sequences

  /** Following `next` from `first` visits exactly `items`, in order. */
  ghost predicate Chain(next: seq<int>, first: int, items: seq<int>) {
    && Distinct(items)
    && first == (if items == [] then NIL else items[0])
    && (forall k {:trigger items[k]} :: 0 <= k < |items| ==> 0 <= items[k] < |next|)
    && (forall k {:trigger next[items[k]]} :: 0 <= k < |items| ==> next[items[k]] == if k + 1 < |items| then items[k + 1] else NIL)
  }

  /** Writing the link of a record that is not on a list does not change the list. */
  lemma ChainApart(next: seq<int>, first: int, items: seq<int>, x: int, link: int)
    requires Chain(next, first, items) && 0 <= x < |next| && x !in items
    ensures Chain(next[x := link], first, items)
  {
  }

  lemma ChainPushed(next: seq<int>, first: int, items: seq<int>, x: int)
    requires Chain(next, first, items) && 0 <= x < |next| && x !in items
    ensures Chain(next[x := first], x, With(items, 0, x))
  {
  }

  lemma ChainInserted(next: seq<int>, first: int, items: seq<int>, k: nat, x: int)
    requires Chain(next, first, items) && k < |items| && 0 <= x < |next| && x !in items
    ensures Chain(next[x := next[items[k]]][items[k] := x], first, With(items, k + 1, x))
  {
  }

  lemma ChainRemoved(next: seq<int>, first: int, items: seq<int>, k: nat)
    requires Chain(next, first, items) && k < |items|
    ensures Chain(if k == 0 then next else next[items[k - 1] := next[items[k]]],
                  if k == 0 then next[items[0]] else first, Without(items, k))
  {
  }

  // ----- a table whose records are spread over several lists -----

  /** List number `s` starts at `heads[s]` and consists of `lists[s]`; `owner` tells for each record the list it is on, and
      is negative when it is on none. */
  ghost predicate Partition(next: seq<int>, heads: seq<int>, owner: seq<int>, lists: seq<seq<int>>) {
    && |owner| == |next| && |heads| == |lists|
    && (forall s {:trigger lists[s]} :: 0 <= s < |lists| ==> Chain(next, heads[s], lists[s]))
    && (forall s, k {:trigger lists[s][k]} :: 0 <= s < |lists| && 0 <= k < |lists[s]| ==> owner[lists[s][k]] == s)
    && (forall x {:trigger owner[x]} :: 0 <= x < |owner| && owner[x] >= 0 ==> owner[x] < |lists| && x in lists[owner[x]])
  }

  lemma Place(items: seq<int>, x: int) returns (k: nat)
    requires x in items
    ensures k < |items| && items[k] == x
  {
    k :| 0 <= k < |items| && items[k] == x;
  }

  /** Rebuilds the partition after list `s` and the owner of `x` changed. */
  lemma Repartition(next: seq<int>, heads: seq<int>, owner: seq<int>, lists: seq<seq<int>>,
                    next': seq<int>, heads': seq<int>, owner': seq<int>, lists': seq<seq<int>>, s: nat, x: int)
    requires Partition(next, heads, owner, lists) && s < |lists|
    requires |next'| == |next| && |heads'| == |heads| && |owner'| == |owner| && |lists'| == |lists|
    requires forall t {:trigger lists'[t]} :: 0 <= t < |lists| && t != s ==>
               lists'[t] == lists[t] && heads'[t] == heads[t] && Chain(next', heads[t], lists[t])
    requires Chain(next', heads'[s], lists'[s])
    requires forall y {:trigger owner'[y]} :: 0 <= y < |owner| && y != x ==> owner'[y] == owner[y]
    requires forall y :: y in lists'[s] <==> (y == x && 0 <= x < |owner| && owner'[x] == s) || (y != x && y in lists[s])
    requires 0 <= x < |owner| ==> owner'[x] < 0 || owner'[x] == s
    requires forall t :: 0 <= t < |lists| && t != s ==> x !in lists[t]
    ensures Partition(next', heads', owner', lists')
  {
    forall t, k | 0 <= t < |lists'| && 0 <= k < |lists'[t]|
      ensures owner'[lists'[t][k]] == t
    {
      assert lists'[t][k] in lists'[t];
      if t != s {
        assert owner[lists[t][k]] == t;
        assert lists'[t][k] in lists[t];
      } else if lists'[s][k] != x {
        var i := Place(lists[s], lists'[s][k]);
        assert owner[lists[s][i]] == s;
      }
    }
    forall y | 0 <= y < |owner'| && owner'[y] >= 0
      ensures owner'[y] < |lists'| && y in lists'[owner'[y]]
    {
      assert y != x ==> owner'[y] == owner[y];
    }
  }

  /** A record that is on no list is on none of them. */
  lemma NotOn(next: seq<int>, heads: seq<int>, owner: seq<int>, lists: seq<seq<int>>, x: int, t: nat)
    requires Partition(next, heads, owner, lists) && 0 <= x < |owner| && t < |lists| && owner[x] != t
    ensures x !in lists[t]
  {
  }

  /** A record is put in front of list `s`. */
  lemma Pushed(next: seq<int>, heads: seq<int>, owner: seq<int>, lists: seq<seq<int>>, s: nat, x: int)
    requires Partition(next, heads, owner, lists) && s < |lists| && 0 <= x < |owner| && owner[x] < 0
    ensures Partition(next[x := heads[s]], heads[s := x], owner[x := s], lists[s := With(lists[s], 0, x)])
  {
    forall t | 0 <= t < |lists|
      ensures x !in lists[t]
    {
      NotOn(next, heads, owner, lists, x, t);
    }
    forall t | 0 <= t < |lists| && t != s
      ensures Chain(next[x := heads[s]], heads[t], lists[t])
    {
      ChainApart(next, heads[t], lists[t], x, heads[s]);
    }
    ChainPushed(next, heads[s], lists[s], x);
    InWith(lists[s], 0, x);
    Repartition(next, heads, owner, lists, next[x := heads[s]], heads[s := x], owner[x := s], lists[s := With(lists[s], 0, x)], s, x);
  }

  lemma InWith(items: seq<int>, k: nat, x: int)
    requires k <= |items|
    ensures forall y :: y in With(items, k, x) <==> y == x || y in items
  {
    var r := With(items, k, x);
    assert r[k] == x;
    forall y | y in items
      ensures y in r
    {
      var i := Place(items, y);
      assert r[if i < k then i else i + 1] == y;
    }
  }

  lemma InWithout(items: seq<int>, k: nat)
    requires k < |items| && Distinct(items)
    ensures forall y :: y in Without(items, k) <==> y != items[k] && y in items
  {
    var r := Without(items, k);
    forall y | y in items && y != items[k]
      ensures y in r
    {
      var i := Place(items, y);
      assert r[if i < k then i else i - 1] == y;
    }
    forall i | 0 <= i < |r|
      ensures r[i] in items && r[i] != items[k]
    {
      assert r[i] == items[if i < k then i else i + 1];
    }
  }

  /** A record is put behind the `k`-th of list `s`. */
  lemma Inserted(next: seq<int>, heads: seq<int>, owner: seq<int>, lists: seq<seq<int>>, s: nat, k: nat, x: int)
    requires Partition(next, heads, owner, lists) && s < |lists| && k < |lists[s]| && 0 <= x < |owner| && owner[x] < 0
    ensures var p := lists[s][k];
            0 <= p < |next| && Partition(next[x := next[p]][p := x], heads, owner[x := s], lists[s := With(lists[s], k + 1, x)])
  {
    var p := lists[s][k];
    assert Chain(next, heads[s], lists[s]);
    var next1 := next[x := next[p]];
    assert owner[p] == s;
    forall t | 0 <= t < |lists|
      ensures x !in lists[t] && (t != s ==> p !in lists[t])
    {
      NotOn(next, heads, owner, lists, x, t);
      if t != s {
        NotOn(next, heads, owner, lists, p, t);
      }
    }
    forall t | 0 <= t < |lists| && t != s
      ensures Chain(next1[p := x], heads[t], lists[t])
    {
      ChainApart(next, heads[t], lists[t], x, next[p]);
      ChainApart(next1, heads[t], lists[t], p, x);
    }
    ChainInserted(next, heads[s], lists[s], k, x);
    InWith(lists[s], k + 1, x);
    Repartition(next, heads, owner, lists, next1[p := x], heads, owner[x := s], lists[s := With(lists[s], k + 1, x)], s, x);
  }

  /** The `k`-th record is taken off list `s`; `free` says that it is on none now. */
  lemma Unlinked(next: seq<int>, heads: seq<int>, owner: seq<int>, lists: seq<seq<int>>, s: nat, k: nat, free: int)
    requires Partition(next, heads, owner, lists) && s < |lists| && k < |lists[s]| && free < 0
    ensures var x := lists[s][k];
            && 0 <= x < |next| && (k > 0 ==> 0 <= lists[s][k - 1] < |next|)
            && Partition((if k == 0 then next else next[lists[s][k - 1] := next[x]])[x := NIL],
                         if k == 0 then heads[s := next[x]] else heads,
                         owner[x := free], lists[s := Without(lists[s], k)])
  {
    var x, r := lists[s][k], Without(lists[s], k);
    assert Chain(next, heads[s], lists[s]);
    assert owner[x] == s && (k > 0 ==> owner[lists[s][k - 1]] == s);
    var next1 := if k == 0 then next else next[lists[s][k - 1] := next[x]];
    var heads' := if k == 0 then heads[s := next[x]] else heads;
    InWithout(lists[s], k);
    ChainRemoved(next, heads[s], lists[s], k);
    ChainApart(next1, heads'[s], r, x, NIL);
    forall t | 0 <= t < |lists| && t != s
      ensures x !in lists[t] && Chain(next1[x := NIL], heads[t], lists[t])
    {
      NotOn(next, heads, owner, lists, x, t);
      if k > 0 {
        NotOn(next, heads, owner, lists, lists[s][k - 1], t);
        ChainApart(next, heads[t], lists[t], lists[s][k - 1], next[x]);
      }
      ChainApart(next1, heads[t], lists[t], x, NIL);
    }
    Repartition(next, heads, owner, lists, next1[x := NIL], heads', owner[x := free], lists[s := r], s, x);
  }

  /** All records of list `s` are taken off it. */
  lemma Emptied(next: seq<int>, heads: seq<int>, owner: seq<int>, lists: seq<seq<int>>, s: nat, owner': seq<int>)
    requires Partition(next, heads, owner, lists) && s < |lists| && |owner'| == |owner|
    requires forall x {:trigger owner'[x]} :: 0 <= x < |owner| ==> owner'[x] == if owner[x] == s then NIL else owner[x]
    ensures Partition(next, heads[s := NIL], owner', lists[s := []])
  {
  }

  /** The link of a record on no list is free to change, and so is what says that it is on none. */
  lemma Aside(next: seq<int>, heads: seq<int>, owner: seq<int>, lists: seq<seq<int>>, x: nat, link: int, free: int)
    requires Partition(next, heads, owner, lists) && x < |owner| && owner[x] < 0 && free < 0
    ensures Partition(next[x := link], heads, owner[x := free], lists)
  {
  }

  /** The table grows by a record that is on no list. */
  lemma Grown(next: seq<int>, heads: seq<int>, owner: seq<int>, lists: seq<seq<int>>, link: int)
    requires Partition(next, heads, owner, lists)
    ensures Partition(next + [link], heads, owner + [NIL], lists)
  {
  }

  /** One more list, empty. */
  lemma Widened(next: seq<int>, heads: seq<int>, owner: seq<int>, lists: seq<seq<int>>)
    requires Partition(next, heads, owner, lists)
    ensures Partition(next, heads + [NIL], owner, lists + [[]])
  {
  }

  lemma ChainJoined(next: seq<int>, first: int, items: seq<int>, second: int, more: seq<int>)
    requires Chain(next, first, items) && Chain(next, second, more) && items != []
    requires forall x :: x in items ==> x !in more
    ensures Chain(next[items[|items| - 1] := second], first, items + more)
  {
    var r, last := items + more, items[|items| - 1];
    var n := next[last := second];
    assert r[0] == items[0];
    forall i | 0 <= i < |r|
      ensures 0 <= r[i] < |next| && n[r[i]] == if i + 1 < |r| then r[i + 1] else NIL
    {
      if i < |items| {
        assert r[i] == items[i];
        assert i < |items| - 1 ==> items[i] != last;
      } else {
        assert r[i] == more[i - |items|] && r[i] in more && last in items;
      }
    }
    forall i, j | 0 <= i < j < |r|
      ensures r[i] != r[j]
    {
      assert r[i] == if i < |items| then items[i] else more[i - |items|];
      assert r[j] == if j < |items| then items[j] else more[j - |items|];
      assert i < |items| <= j ==> items[i] in items && more[j - |items|] in more;
    }
    assert r != [] && |r| > 0;
    assert forall k {:trigger n[r[k]]} :: 0 <= k < |r| ==> n[r[k]] == if k + 1 < |r| then r[k + 1] else NIL;
  }

  function Moved(owner: seq<int>, a: int, b: int): (r: seq<int>)
    ensures |r| == |owner|
    ensures forall x {:trigger r[x]} :: 0 <= x < |owner| ==> r[x] == if owner[x] == a then b else owner[x]
  {
    seq(|owner|, x requires 0 <= x < |owner| => if owner[x] == a then b else owner[x])
  }

  /** Two lists share no record. */
  lemma OnOneOnly(next: seq<int>, heads: seq<int>, owner: seq<int>, lists: seq<seq<int>>, a: nat, b: nat)
    requires Partition(next, heads, owner, lists) && a < |lists| && b < |lists| && a != b
    ensures forall x :: x in lists[a] ==> x !in lists[b]
  {
    forall x | x in lists[a]
      ensures x !in lists[b]
    {
      var k := Place(lists[a], x);
      assert owner[lists[a][k]] == a;
      NotOn(next, heads, owner, lists, x, b);
    }
  }

  /** List `a` is put in front of list `b`. */
  lemma Joined(next: seq<int>, heads: seq<int>, owner: seq<int>, lists: seq<seq<int>>, a: nat, b: nat)
    requires Partition(next, heads, owner, lists) && a < |lists| && b < |lists| && a != b && lists[a] != []
    ensures var last := lists[a][|lists[a]| - 1];
            0 <= last < |next|
            && Partition(next[last := heads[b]], heads[b := heads[a]][a := NIL], Moved(owner, a, b), lists[b := lists[a] + lists[b]][a := []])
  {
    var last := lists[a][|lists[a]| - 1];
    var next', heads', owner' := next[last := heads[b]], heads[b := heads[a]][a := NIL], Moved(owner, a, b);
    var lists' := lists[b := lists[a] + lists[b]][a := []];
    assert Chain(next, heads[a], lists[a]) && Chain(next, heads[b], lists[b]);
    assert owner[last] == a;
    OnOneOnly(next, heads, owner, lists, a, b);
    ChainJoined(next, heads[a], lists[a], heads[b], lists[b]);
    forall t | 0 <= t < |lists|
      ensures Chain(next', heads'[t], lists'[t])
    {
      if t != a && t != b {
        NotOn(next, heads, owner, lists, last, t);
        ChainApart(next, heads[t], lists[t], last, heads[b]);
      }
    }
    forall t, k | 0 <= t < |lists'| && 0 <= k < |lists'[t]|
      ensures owner'[lists'[t][k]] == t
    {
      if t == b && k < |lists[a]| {
        assert owner[lists[a][k]] == a;
      } else {
        var i := if t == b then k - |lists[a]| else k;
        assert lists'[t][k] == lists[t][i] && owner[lists[t][i]] == t;
      }
    }
    forall x | 0 <= x < |owner'| && owner'[x] >= 0
      ensures owner'[x] < |lists'| && x in lists'[owner'[x]]
    {
      assert x in lists[owner[x]];
    }
  }
}
