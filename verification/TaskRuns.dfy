/** Runs of the task server: what every sequence of requests keeps, and which waiting callers are answered. */
module TaskRuns {
  import opened Words
  import opened Sequences
  import opened Chains
  import opened Tasks

  /** A request that succeeded, with the records it chose. `Ignored` is a wait for an id that no record has. */
  datatype Deed =
    | Starts(t: int, s: int, byAppPager: bool)
    | Creates(c: int, k: nat, n: int, localid: Word)
    | Waits(t: int, l: int, caller: Word)
    | Kills(s: int, k: nat)
    | Ignored

  ghost predicate Legal(a: Area, w: World, d: Deed) {
    && Sound(a, w)
    && match d
       case Starts(t, s, _) => 0 <= t < THREADS && w.ts[t].space == NIL && 0 <= s < SPACES && w.ss[s].first == NIL
       case Creates(c, k, n, localid) =>
         && 0 <= c < THREADS && 0 <= n < THREADS && w.ts[n].space == NIL && 0 <= w.ts[c].space < SPACES
         && k < |w.g.members[w.ts[c].space]| && w.g.members[w.ts[c].space][k] == c
         && LowestPlace(a, w.ts, w.ts[c].space, localid)
       case Waits(t, l, caller) => 0 <= t < THREADS && 0 <= l < LISTENERS && w.ls[l].who == NILTHREAD && caller != NILTHREAD
       case Kills(s, k) => 0 <= s < SPACES && k < |w.g.members[s]|
       case Ignored => true
  }

  /** The thread that a kill is about. */
  ghost function Victim(a: Area, w: World, d: Deed): (t: int)
    requires Legal(a, w, d) && d.Kills?
    ensures 0 <= t < THREADS && w.ts[t].space == d.s
  {
    MembersLive(a, w, d.s, d.k);
    w.g.members[d.s][d.k]
  }

  lemma MembersLive(a: Area, w: World, s: nat, k: nat)
    requires Sound(a, w) && s < SPACES && k < |w.g.members[s]|
    ensures forall i {:trigger w.g.members[s][i]} :: 0 <= i < |w.g.members[s]| ==> 0 <= w.g.members[s][i] < THREADS
    ensures w.ts[w.g.members[s][k]].space == s
  {
    assert Chain(NextOf(w.ts), FirstOf(w.ss)[s], w.g.members[s]);
    assert SpaceOf(w.ts)[w.g.members[s][k]] == s;
  }

  ghost function After(a: Area, w: World, d: Deed): World
    requires Legal(a, w, d)
  {
    match d
    case Starts(t, s, byAppPager) => TaskStarted(a, w, t, s, byAppPager)
    case Creates(c, k, n, localid) => ThreadCreated(w.(ts := w.ts[n := EMPTY_TCB]), c, k, n, localid)
    case Waits(t, l, caller) => CallerWaits(w, t, l, caller)
    case Kills(s, k) => MembersLive(a, w, s, k); ThreadKilled(w, s, k)
    case Ignored => w
  }

  /** The listener is answered, and free again, with this request. */
  ghost predicate Answers(a: Area, w: World, d: Deed, l: int)
    requires Legal(a, w, d)
  {
    d.Kills? && l in w.g.waiters[Victim(a, w, d)]
  }

  /** A run of the task server. */
  ghost predicate Run(a: Area, ws: seq<World>, ds: seq<Deed>) {
    && |ws| == |ds| + 1
    && forall i {:trigger ds[i]} :: 0 <= i < |ds| ==> Legal(a, ws[i], ds[i]) && ws[i + 1] == After(a, ws[i], ds[i])
  }

  // ----- one request -----

  /** A listener whose caller waits for a thread that is gone stays as it is. */
  lemma StrandedStays(a: Area, w: World, d: Deed, l: int)
    requires Legal(a, w, d) && 0 <= l < LISTENERS && w.g.on[l] == STRANDED
    ensures !Answers(a, w, d, l)
    ensures After(a, w, d).g.on[l] == STRANDED && After(a, w, d).ls[l] == w.ls[l]
  {
    assert w.ls[l].who != NILTHREAD;
    if d.Kills? {
      MembersLive(a, w, d.s, d.k);
      NotOn(LinkOf(w.ls), w.g.heads, w.g.on, w.g.waiters, l, Victim(a, w, d));
    }
  }

  /** A listener on a thread's list stays there until the thread is killed, and is answered and freed then. */
  lemma WaitingStays(a: Area, w: World, d: Deed, l: int, t: int)
    requires Legal(a, w, d) && 0 <= l < LISTENERS && 0 <= t < THREADS && w.g.on[l] == t
    ensures w.ls[l].who != NILTHREAD
    ensures Answers(a, w, d, l) <==> d.Kills? && Victim(a, w, d) == t
    ensures Answers(a, w, d, l) ==>
              && After(a, w, d).ls[l].who == NILTHREAD && After(a, w, d).g.on[l] == NIL
              && w.ls[l].who in Asked(w.g.log, t)
    ensures !Answers(a, w, d, l) ==> After(a, w, d).g.on[l] == t && After(a, w, d).ls[l] == w.ls[l]
  {
    assert w.ls[l].who != NILTHREAD && l in w.g.waiters[t];
    if d.Kills? {
      MembersLive(a, w, d.s, d.k);
      var v := Victim(a, w, d);
      if v != t {
        NotOn(LinkOf(w.ls), w.g.heads, w.g.on, w.g.waiters, l, v);
      } else {
        var i := Place(w.g.waiters[t], l);
        assert Callers(w.ls, w.g.waiters[t])[i] == w.ls[l].who;
      }
    }
  }

  /** After a caller is told to wait, its listener is on a list exactly if the thread is live. */
  lemma OnListIfLive(a: Area, w: World, d: Deed)
    requires Legal(a, w, d) && d.Waits?
    ensures var w' := After(a, w, d);
            && w'.ls[d.l].who == d.caller
            && w'.g.on[d.l] == if w.ts[d.t].space == NIL then STRANDED else d.t
  {
  }

  // ----- runs -----

  /** Every request keeps the invariants. */
  lemma StepKeeps(a: Area, w: World, d: Deed)
    requires Legal(a, w, d)
    ensures Sound(a, After(a, w, d))
  {
    match d {
      case Starts(t, s, byAppPager) =>
        WipeKeeps(a, w, t);
        var w1 := w.(ts := w.ts[t := EMPTY_TCB]);
        WipeSpaceKeeps(a, w1, s);
        StartKeeps(a, w1.(ss := w1.ss[s := EMPTY_AS]), t, s, byAppPager);
        ClearedFirst(a, w, t, s, byAppPager);
      case Creates(c, k, n, localid) =>
        WipeKeeps(a, w, n);
        CreateKeeps(a, w.(ts := w.ts[n := EMPTY_TCB]), c, k, n, localid);
      case Waits(t, l, caller) =>
        if w.ts[t].space == NIL {
          WaitInVain(a, w, t, l, caller);
        } else {
          WaitKeeps(a, w, t, l, caller);
        }
      case Kills(s, k) =>
        KillKeeps(a, w, s, k);
      case Ignored =>
    }
  }

  lemma RunExtended(a: Area, ws: seq<World>, ds: seq<Deed>, d: Deed)
    requires Run(a, ws, ds) && Legal(a, ws[|ds|], d)
    ensures Run(a, ws + [After(a, ws[|ds|], d)], ds + [d])
  {
  }

  /** A caller that is told to wait for a thread that is gone waits for ever: its listener stays in use in every later state,
      and no later request answers it. */
  lemma {:induction false} NeverAnswered(a: Area, ws: seq<World>, ds: seq<Deed>, i: nat, j: nat)
    requires Run(a, ws, ds) && i < j <= |ds| && ds[i].Waits? && ws[i].ts[ds[i].t].space == NIL
    ensures |ws[j].ls| == |ws[j].g.on| == LISTENERS && ws[j].g.on[ds[i].l] == STRANDED && ws[j].ls[ds[i].l].who == ds[i].caller
    ensures j < |ds| ==> !Answers(a, ws[j], ds[j], ds[i].l)
  {
    var d := ds[j - 1];
    StepKeeps(a, ws[j - 1], d);
    if i == j - 1 {
      OnListIfLive(a, ws[i], d);
    } else {
      NeverAnswered(a, ws, ds, i, j - 1);
      StrandedStays(a, ws[j - 1], d, ds[i].l);
    }
    if j < |ds| {
      StrandedStays(a, ws[j], ds[j], ds[i].l);
    }
  }

  /** No request from the `i`-th on and before the `j`-th kills thread `t`. */
  ghost predicate Survives(a: Area, ws: seq<World>, ds: seq<Deed>, i: nat, j: nat, t: int)
    requires Run(a, ws, ds) && i <= j <= |ds|
  {
    forall x {:trigger ds[x]} :: i <= x < j && ds[x].Kills? ==> Victim(a, ws[x], ds[x]) != t
  }

  /** A caller that is told to wait for a live thread keeps waiting until the thread is killed, and is answered then: as long
      as that has not happened, a request answers its listener exactly if it kills the thread. */
  lemma {:induction false} AnsweredWhenKilled(a: Area, ws: seq<World>, ds: seq<Deed>, i: nat, j: nat)
    requires Run(a, ws, ds) && i < j <= |ds| && ds[i].Waits? && ws[i].ts[ds[i].t].space != NIL
    requires Survives(a, ws, ds, i, j, ds[i].t)
    ensures |ws[j].ls| == |ws[j].g.on| == LISTENERS && ws[j].g.on[ds[i].l] == ds[i].t && ws[j].ls[ds[i].l].who == ds[i].caller
    ensures j < |ds| ==> (Answers(a, ws[j], ds[j], ds[i].l) <==> ds[j].Kills? && Victim(a, ws[j], ds[j]) == ds[i].t)
    ensures j < |ds| && Answers(a, ws[j], ds[j], ds[i].l) ==>
              ds[i].caller in Asked(ws[j].g.log, ds[i].t) && ws[j + 1].ls[ds[i].l].who == NILTHREAD
  {
    var d := ds[j - 1];
    StepKeeps(a, ws[j - 1], d);
    if i == j - 1 {
      OnListIfLive(a, ws[i], d);
    } else {
      AnsweredWhenKilled(a, ws, ds, i, j - 1);
      WaitingStays(a, ws[j - 1], d, ds[i].l, ds[i].t);
    }
    if j < |ds| {
      WaitingStays(a, ws[j], ds[j], ds[i].l, ds[i].t);
    }
  }

  // ----- where control blocks are -----

  /** The request made thread `t` with this record: the first thread of a task has the first control block of the area, and a
      created one the lowest that no thread of its creator's space has then, or none if all are taken. */
  ghost predicate Born(a: Area, w: World, d: Deed, t: int, r: Tcb) {
    || (d.Starts? && d.t == t && r.space == d.s && r.localid == a.start)
    || (d.Creates? && d.n == t && 0 <= d.c < |w.ts| && r.space == w.ts[d.c].space && r.localid == d.localid
        && LowestUnit(a, w.ts, r.space, r.localid))
  }

  /** Some thread of space `s` has the `k`-th control block. */
  ghost predicate Taken(a: Area, ts: seq<Tcb>, s: int, k: nat) {
    exists u {:trigger ts[u]} :: 0 <= u < |ts| && ts[u].space == s && ts[u].localid == a.start + k * a.unit
  }

  ghost predicate LowestUnit(a: Area, ts: seq<Tcb>, s: int, localid: Word) {
    if localid == NILTHREAD then forall k: nat :: a.start + k * a.unit < a.start + a.size ==> Taken(a, ts, s, k)
    else exists k: nat :: localid == a.start + k * a.unit < a.start + a.size && !Taken(a, ts, s, k) && forall j: nat :: j < k ==> Taken(a, ts, s, j)
  }

  lemma LowestPlaceIsUnit(a: Area, ts: seq<Tcb>, s: int, localid: Word)
    requires ProperArea(a) && LowestPlace(a, ts, s, localid)
    ensures LowestUnit(a, ts, s, localid)
  {
    forall k: nat
      ensures Unit(a, k) == a.start + k * a.unit && (Taken(a, ts, s, k) <==> !Unused(ts, s, Unit(a, k)))
    {
      UnitPlace(a, k);
    }
    if localid != NILTHREAD {
      var k: nat :| localid == Unit(a, k);
      forall j: nat | j < k
        ensures Taken(a, ts, s, j)
      {
        UnitsAscend(a, j, k);
      }
    }
  }

  /** A request gives a live thread's record no other place, and makes a record live only as above. */
  lemma StepPlaces(a: Area, w: World, d: Deed, t: nat)
    requires Legal(a, w, d) && t < THREADS
    ensures var r, r' := w.ts[t], After(a, w, d).ts[t];
            && |After(a, w, d).ts| == THREADS
            && (r.space != NIL && r'.space != NIL ==> r'.space == r.space && r'.localid == r.localid && r'.globalid == r.globalid)
            && (r.space == NIL && r'.space != NIL ==> Born(a, w, d, t, r'))
  {
    if d.Creates? {
      LowestPlaceIsUnit(a, w.ts, w.ts[d.c].space, d.localid);
    } else if d.Kills? {
      MembersLive(a, w, d.s, d.k);
    }
  }

  /** Whatever requests came before, a live thread has its control block since it was made: the first of the area for the first
      thread of a task, the lowest that was free for a created one, and none only if all were taken then. */
  lemma {:induction false} BornThere(a: Area, ws: seq<World>, ds: seq<Deed>, j: nat, t: nat) returns (i: nat)
    requires Run(a, ws, ds) && j <= |ds| && t < THREADS == |ws[0].ts| == |ws[j].ts|
    requires ws[0].ts[t].space == NIL && ws[j].ts[t].space != NIL
    ensures i < j && Born(a, ws[i], ds[i], t, ws[j].ts[t])
  {
    assert Legal(a, ws[j - 1], ds[j - 1]) && ws[j] == After(a, ws[j - 1], ds[j - 1]);
    StepPlaces(a, ws[j - 1], ds[j - 1], t);
    if ws[j - 1].ts[t].space == NIL {
      i := j - 1;
    } else {
      i := BornThere(a, ws, ds, j - 1, t);
    }
  }

  /** Threads that live in one space at the same time have different control blocks, unless one of them was made when all were
      taken. */
  lemma {:induction false} OwnPlaces(a: Area, ws: seq<World>, ds: seq<Deed>, j: nat, t: nat, u: nat)
    requires Run(a, ws, ds) && Sound(a, ws[0]) && j <= |ds| && t < u < THREADS == |ws[j].ts|
    requires ws[j].ts[t].space != NIL && ws[j].ts[t].space == ws[j].ts[u].space
    ensures ws[j].ts[t].localid != ws[j].ts[u].localid || ws[j].ts[t].localid == NILTHREAD
  {
    RunIsSound(a, ws, ds, j);
  }

  lemma {:induction false} RunIsSound(a: Area, ws: seq<World>, ds: seq<Deed>, j: nat)
    requires Run(a, ws, ds) && Sound(a, ws[0]) && j <= |ds|
    ensures Sound(a, ws[j])
  {
    if j > 0 {
      StepKeeps(a, ws[j - 1], ds[j - 1]);
    }
  }
}
