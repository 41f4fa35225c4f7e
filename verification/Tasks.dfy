/** What the task server's tables of threads, address spaces and waiting callers mean, and what each request keeps. */
module Tasks {
  import opened Words
  import opened Sequences
  import opened Chains

  const SPACES := 64
  const THREADS := 256
  const LISTENERS := 256

  /** A listener whose caller waits for a thread that is gone: it is in use, and nobody will answer it. */
  const STRANDED := -2

  /** Where a space keeps the control blocks of its threads. */
  datatype Area = Area(start: int, size: int, unit: int)

  ghost predicate ProperArea(a: Area) {
    0 < a.start && 1 <= a.size && 1 <= a.unit && a.start + a.size + a.unit <= WORD
  }

  datatype Tcb = Tcb(globalid: Word, localid: Word, space: int, next: int, waiter: int)

  datatype As = As(area: Area, byAppPager: bool, first: int)

  datatype Listener = Listener(who: Word, next: int)

  const EMPTY_TCB := Tcb(NILTHREAD, NILTHREAD, NIL, NIL, NIL)
  const EMPTY_AS := As(Area(0, 0, 0), false, NIL)
  const EMPTY_LISTENER := Listener(NILTHREAD, NIL)

  function NextOf(ts: seq<Tcb>): (r: seq<int>)
    ensures |r| == |ts|
  {
    seq(|ts|, i requires 0 <= i < |ts| => ts[i].next)
  }

  function SpaceOf(ts: seq<Tcb>): (r: seq<int>)
    ensures |r| == |ts|
  {
    seq(|ts|, i requires 0 <= i < |ts| => ts[i].space)
  }

  function FirstOf(ss: seq<As>): (r: seq<int>)
    ensures |r| == |ss|
  {
    seq(|ss|, i requires 0 <= i < |ss| => ss[i].first)
  }

  function LinkOf(ls: seq<Listener>): (r: seq<int>)
    ensures |r| == |ls|
  {
    seq(|ls|, i requires 0 <= i < |ls| => ls[i].next)
  }

  // ----- what happened -----

  datatype Event =
    | Started(t: int)
    | Waited(t: int, caller: Word)
    | Killed(t: int)

  /** The callers that have asked to wait for the thread in slot `t` since it was started, latest first. */
  function Asked(log: seq<Event>, t: int): seq<Word> {
    if log == [] then []
    else
      var e := log[|log| - 1];
      var before := log[..|log| - 1];
      if e.t != t then Asked(before, t)
      else if e.Waited? then [e.caller] + Asked(before, t)
      else []
  }

  /** The callers kept in the given listeners, in order. */
  function Callers(ls: seq<Listener>, items: seq<int>): seq<Word> {
    seq(|items|, i requires 0 <= i < |items| => if 0 <= items[i] < |ls| then ls[items[i]].who else NILTHREAD)
  }

  /** The threads of each space, the listeners of each thread, the list each listener is on, and what happened so far. */
  datatype Lists = Lists(members: seq<seq<int>>, waiters: seq<seq<int>>, heads: seq<int>, on: seq<int>, log: seq<Event>)

  // ----- invariants -----

  /** The space lists partition the live threads. */
  ghost predicate Grouped(ts: seq<Tcb>, ss: seq<As>, members: seq<seq<int>>) {
    && Partition(NextOf(ts), FirstOf(ss), SpaceOf(ts), members)
    && forall t {:trigger ts[t]} :: 0 <= t < |ts| ==> ts[t].space >= NIL
  }

  /** Every listener in use is on the list of exactly one live thread, or stranded. */
  ghost predicate Listening(ts: seq<Tcb>, ls: seq<Listener>, g: Lists) {
    && Partition(LinkOf(ls), g.heads, g.on, g.waiters)
    && |g.heads| == |ts|
    && (forall t {:trigger ts[t]} :: 0 <= t < |ts| ==> g.heads[t] == if ts[t].space == NIL then NIL else ts[t].waiter)
    && (forall l {:trigger ls[l]} :: 0 <= l < |ls| ==> (ls[l].who != NILTHREAD <==> g.on[l] != NIL))
  }

  /** The list of a live thread holds exactly the callers that wait for it. */
  ghost predicate Remembered(ts: seq<Tcb>, ls: seq<Listener>, g: Lists) {
    |g.waiters| == |ts|
    && forall t {:trigger g.waiters[t]} :: 0 <= t < |ts| && ts[t].space != NIL ==> Callers(ls, g.waiters[t]) == Asked(g.log, t)
  }

  /** The place of the `k`-th control block. */
  function Unit(a: Area, k: nat): int {
    if k == 0 then a.start else Unit(a, k - 1) + a.unit
  }

  /** Control blocks lie one behind the other, from the start of the area on. */
  lemma {:induction false} UnitPlace(a: Area, k: nat)
    ensures Unit(a, k) == a.start + k * a.unit
  {
    if k > 0 {
      UnitPlace(a, k - 1);
    }
  }

  lemma {:induction false} UnitsAscend(a: Area, j: nat, k: nat)
    requires a.unit >= 1 && j < k
    ensures Unit(a, j) + a.unit <= Unit(a, k)
  {
    if j < k - 1 {
      UnitsAscend(a, j, k - 1);
    }
  }

  lemma UnitsBelow(a: Area, n: nat)
    requires a.unit >= 1
    ensures forall k: nat {:trigger Unit(a, k)} :: Unit(a, k) < Unit(a, n) ==> k < n
    ensures Unit(a, n) >= a.start
  {
    forall k: nat | k >= n
      ensures Unit(a, k) >= Unit(a, n)
    {
      if k > n {
        UnitsAscend(a, n, k);
      }
    }
    if n > 0 {
      UnitsAscend(a, 0, n);
    }
  }

  /** When the area is a whole number of control blocks, each of them lies inside it. */
  lemma {:induction false} UnitsInside(a: Area, k: nat, blocks: nat)
    requires ProperArea(a) && a.start + a.size == Unit(a, blocks) && Unit(a, k) < a.start + a.size
    ensures a.start <= Unit(a, k) && Unit(a, k) + a.unit <= a.start + a.size
  {
    UnitsBelow(a, blocks);
    UnitsBelow(a, k);
    UnitsAscend(a, k, blocks);
  }

  /** `id` is the place of a control block in the area. */
  ghost predicate IsUnit(a: Area, id: int) {
    a.start <= id < a.start + a.size && exists k: nat :: id == Unit(a, k)
  }

  /** Threads of a space have control blocks of their own, or none. */
  ghost predicate Located(a: Area, ts: seq<Tcb>, ss: seq<As>) {
    && (forall t {:trigger ts[t]} :: 0 <= t < |ts| && ts[t].space != NIL ==>
          && 0 <= ts[t].space < |ss| && ss[ts[t].space].area == a
          && (ts[t].localid == NILTHREAD || IsUnit(a, ts[t].localid)))
    && (forall t, u {:trigger ts[t], ts[u]} :: 0 <= t < u < |ts| && ts[t].space != NIL && ts[t].space == ts[u].space ==>
          ts[t].localid != ts[u].localid || ts[t].localid == NILTHREAD)
  }

  /** Until the thread numbers wrap, no two records have the same id. */
  ghost predicate Identified(ts: seq<Tcb>, number: nat) {
    number <= NUMBERS ==>
      && (forall t {:trigger ts[t]} :: 0 <= t < |ts| && ts[t].globalid != NILTHREAD ==>
            exists n :: 0 <= n < number && ts[t].globalid == GlobalId(n))
      && (forall t, u {:trigger ts[t], ts[u]} :: 0 <= t < u < |ts| && ts[t].globalid == ts[u].globalid ==> ts[t].globalid == NILTHREAD)
  }

  /** The tables, the next thread number, and what they mean. */
  datatype World = World(ts: seq<Tcb>, ss: seq<As>, ls: seq<Listener>, number: nat, g: Lists)

  ghost predicate Sound(a: Area, w: World) {
    && |w.ts| == THREADS && |w.ss| == SPACES && |w.ls| == LISTENERS
    && ProperArea(a)
    && Grouped(w.ts, w.ss, w.g.members)
    && Listening(w.ts, w.ls, w.g)
    && Remembered(w.ts, w.ls, w.g)
    && Located(a, w.ts, w.ss)
    && Identified(w.ts, w.number)
  }

  /** How many thread numbers there are: the number takes 18 bits of an id, the version 14. */
  const NUMBERS := 0x40000
  const VERSIONS := 0x4000

  /** The id with version 1 of a thread number. */
  function GlobalId(number: nat): Word {
    number % NUMBERS * VERSIONS + 1
  }

  // ----- projections of updated tables -----

  lemma ThreadUpdated(ts: seq<Tcb>, t: nat, r: Tcb)
    requires t < |ts|
    ensures NextOf(ts[t := r]) == NextOf(ts)[t := r.next] && SpaceOf(ts[t := r]) == SpaceOf(ts)[t := r.space]
    ensures NextOf(ts)[t] == ts[t].next && SpaceOf(ts)[t] == ts[t].space
  {
  }

  lemma ListenerUpdated(ls: seq<Listener>, l: nat, r: Listener)
    requires l < |ls|
    ensures LinkOf(ls[l := r]) == LinkOf(ls)[l := r.next] && LinkOf(ls)[l] == ls[l].next
  {
  }

  lemma SpaceUpdated(ss: seq<As>, s: nat, r: As)
    requires s < |ss|
    ensures FirstOf(ss[s := r]) == FirstOf(ss)[s := r.first] && FirstOf(ss)[s] == ss[s].first
  {
  }

  // ----- what the invariants say -----

  /** A space is free exactly when it has no live thread. */
  lemma FreeSpace(ts: seq<Tcb>, ss: seq<As>, members: seq<seq<int>>, s: nat)
    requires Grouped(ts, ss, members) && s < |ss|
    ensures ss[s].first == NIL <==> forall t {:trigger ts[t]} :: 0 <= t < |ts| ==> ts[t].space != s
  {
    assert Chain(NextOf(ts), FirstOf(ss)[s], members[s]);
    forall t | 0 <= t < |ts| && ts[t].space == s
      ensures ss[s].first != NIL
    {
      assert SpaceOf(ts)[t] == s;
    }
    if members[s] != [] {
      assert SpaceOf(ts)[members[s][0]] == s;
    }
  }

  /** A listener in use and not stranded is on the list of one live thread, at one place. */
  lemma OneThreadAnswers(ts: seq<Tcb>, ls: seq<Listener>, g: Lists, l: nat)
    requires Listening(ts, ls, g) && l < |ls| && ls[l].who != NILTHREAD && g.on[l] >= 0
    ensures var t := g.on[l];
            && t < |ts| && ts[t].space != NIL && l in g.waiters[t]
            && forall u :: 0 <= u < |ts| && l in g.waiters[u] ==> u == t
  {
  }

  // ----- a record is cleared -----

  /** Clearing the record of a thread that is not live. */
  lemma WipeKeeps(a: Area, w: World, t: nat)
    requires Sound(a, w) && t < |w.ts| && w.ts[t].space == NIL
    ensures Sound(a, w.(ts := w.ts[t := EMPTY_TCB]))
  {
    var ts, ss, ls, number, g := w.ts, w.ss, w.ls, w.number, w.g;
    ThreadUpdated(ts, t, EMPTY_TCB);
    Aside(NextOf(ts), FirstOf(ss), SpaceOf(ts), g.members, t, NIL, NIL);
  }

  /** Clearing an address space without live threads. */
  lemma WipeSpaceKeeps(a: Area, w: World, s: nat)
    requires Sound(a, w) && s < |w.ss| && w.ss[s].first == NIL
    ensures Sound(a, w.(ss := w.ss[s := EMPTY_AS]))
  {
    var ts, ss, ls, number, g := w.ts, w.ss, w.ls, w.number, w.g;
    SpaceUpdated(ss, s, EMPTY_AS);
    FreeSpace(ts, ss, g.members, s);
    assert FirstOf(ss)[s := NIL] == FirstOf(ss);
    assert Located(a, ts, ss[s := EMPTY_AS]);
  }

  /** Clearing a listener that is not in use. */
  lemma WipeListenerKeeps(a: Area, w: World, l: nat)
    requires Sound(a, w) && l < |w.ls| && w.ls[l].who == NILTHREAD
    ensures Sound(a, w.(ls := w.ls[l := EMPTY_LISTENER]))
  {
    var ts, ss, ls, number, g := w.ts, w.ss, w.ls, w.number, w.g;
    ListenerUpdated(ls, l, EMPTY_LISTENER);
    Aside(LinkOf(ls), g.heads, g.on, g.waiters, l, NIL, NIL);
    assert g.on[l := NIL] == g.on;
    forall t | 0 <= t < |ts|
      ensures Callers(ls[l := EMPTY_LISTENER], g.waiters[t]) == Callers(ls, g.waiters[t])
    {
      CallersApart(ls, g, t, l, EMPTY_LISTENER);
    }
  }

  /** The callers on one list do not depend on a listener on another list, or on none. */
  lemma CallersApart(ls: seq<Listener>, g: Lists, t: nat, l: nat, r: Listener)
    requires Partition(LinkOf(ls), g.heads, g.on, g.waiters) && t < |g.waiters| && l < |ls| && g.on[l] != t
    ensures Callers(ls[l := r], g.waiters[t]) == Callers(ls, g.waiters[t])
  {
  }

  // ----- a task is started -----

  function TaskStarted(a: Area, w: World, t: nat, s: nat, pager: bool): World
    requires ProperArea(a) && t < |w.ts| && s < |w.ss| && s < |w.g.members|
  {
    World(w.ts[t := Tcb(GlobalId(w.number), a.start, s, NIL, NIL)], w.ss[s := As(a, pager, t)], w.ls, w.number + 1,
          w.g.(members := w.g.members[s := [t]], log := w.g.log + [Started(t)]))
  }

  /** The records of a new task are filled in completely, so that clearing them before makes no difference. */
  lemma ClearedFirst(a: Area, w: World, t: nat, s: nat, byAppPager: bool)
    requires ProperArea(a) && t < |w.ts| && s < |w.ss| == |w.g.members|
    ensures TaskStarted(a, w.(ts := w.ts[t := EMPTY_TCB]).(ss := w.ss[s := EMPTY_AS]), t, s, byAppPager) == TaskStarted(a, w, t, s, byAppPager)
  {
    var r, x := Tcb(GlobalId(w.number), a.start, s, NIL, NIL), As(a, byAppPager, t);
    assert w.ts[t := EMPTY_TCB][t := r] == w.ts[t := r] && w.ss[s := EMPTY_AS][s := x] == w.ss[s := x];
  }

  lemma StartKeeps(a: Area, w: World, t: nat, s: nat, pager: bool)
    requires Sound(a, w) && t < |w.ts| && w.ts[t] == EMPTY_TCB && s < |w.ss| && w.ss[s].first == NIL
    ensures w.g.members[s] == []
    ensures Sound(a, TaskStarted(a, w, t, s, pager))
  {
    var ts, ss, ls, number, g := w.ts, w.ss, w.ls, w.number, w.g;
    var r := Tcb(GlobalId(number), a.start, s, NIL, NIL);
    var ts', ss' := ts[t := r], ss[s := As(a, pager, t)];
    var g' := g.(members := g.members[s := [t]], log := g.log + [Started(t)]);
    ThreadUpdated(ts, t, r);
    SpaceUpdated(ss, s, As(a, pager, t));
    FreeSpace(ts, ss, g.members, s);
    assert Chain(NextOf(ts), FirstOf(ss)[s], g.members[s]);
    Pushed(NextOf(ts), FirstOf(ss), SpaceOf(ts), g.members, s, t);
    assert With(g.members[s], 0, t) == [t];
    AddedIsIdentified(ts, number, t, r);
    assert a.start == Unit(a, 0);
    NobodyAskedYet(ts, ls, g, t, Started(t));
    assert g'.log[..|g.log|] == g.log;
    assert Located(a, ts', ss');
  }

  lemma AddedIsIdentified(ts: seq<Tcb>, number: nat, t: nat, r: Tcb)
    requires Identified(ts, number) && t < |ts| && r.globalid == GlobalId(number)
    ensures Identified(ts[t := r], number + 1)
  {
  }

  /** The record of a thread that is not live has no listeners; the log starts over when it is used again. */
  lemma NobodyAskedYet(ts: seq<Tcb>, ls: seq<Listener>, g: Lists, t: nat, e: Event)
    requires Listening(ts, ls, g) && t < |ts| && ts[t].space == NIL && e.t == t && !e.Waited?
    ensures g.waiters[t] == [] && Asked(g.log + [e], t) == []
    ensures forall u {:trigger Asked(g.log + [e], u)} :: u != t ==> Asked(g.log + [e], u) == Asked(g.log, u)
  {
  }

  // ----- a thread is created -----

  /** The new record is linked in behind its creator's. */
  function Linked(ts: seq<Tcb>, c: nat, n: nat, id: Word): (r: seq<Tcb>)
    requires c < |ts| && n < |ts|
    ensures |r| == |ts|
  {
    var ts1 := ts[n := ts[n].(next := ts[c].next)];
    var ts2 := ts1[c := ts1[c].(next := n)];
    ts2[n := ts2[n].(globalid := id)]
  }

  function AfterCreate(ts: seq<Tcb>, c: nat, n: nat, id: Word, localid: Word): (r: seq<Tcb>)
    requires c < |ts| && n < |ts|
  {
    var ts1 := Linked(ts, c, n, id);
    ts1[n := Tcb(id, localid, ts[c].space, ts1[n].next, NIL)]
  }

  /** No thread of space `s` has the local id. */
  ghost predicate Unused(ts: seq<Tcb>, s: int, localid: int) {
    forall t {:trigger ts[t]} :: 0 <= t < |ts| && ts[t].space == s ==> ts[t].localid != localid
  }

  /** The links with the new record in place. */
  lemma LinkedNext(ts: seq<Tcb>, ss: seq<As>, members: seq<seq<int>>, c: nat, k: nat, n: nat, id: Word)
    requires Grouped(ts, ss, members) && c < |ts| && n < |ts| && 0 <= ts[c].space < |ss| && ts[n].space == NIL
    requires k < |members[ts[c].space]| && members[ts[c].space][k] == c
    ensures var s := ts[c].space;
            var members' := members[s := With(members[s], k + 1, n)];
            && s < |ss| && c != n
            && Partition(NextOf(Linked(ts, c, n, id)), FirstOf(ss), SpaceOf(ts)[n := s], members')
            && Chain(NextOf(Linked(ts, c, n, id)), ss[s].first, members'[s])
  {
    var s := ts[c].space;
    ThreadUpdated(ts, n, ts[n].(next := ts[c].next));
    var ts1 := ts[n := ts[n].(next := ts[c].next)];
    var ts2 := ts1[c := ts1[c].(next := n)];
    ThreadUpdated(ts1, c, ts2[c]);
    ThreadUpdated(ts2, n, ts2[n].(globalid := id));
    assert NextOf(Linked(ts, c, n, id)) == NextOf(ts2);
    assert SpaceOf(ts)[c] == s && SpaceOf(ts)[n] == NIL;
    Inserted(NextOf(ts), FirstOf(ss), SpaceOf(ts), members, s, k, n);
  }

  function ThreadCreated(w: World, c: nat, k: nat, n: nat, localid: Word): World
    requires c < |w.ts| && n < |w.ts| && 0 <= w.ts[c].space < |w.g.members| && k < |w.g.members[w.ts[c].space]|
  {
    var s := w.ts[c].space;
    w.(ts := AfterCreate(w.ts, c, n, GlobalId(w.number), localid), number := w.number + 1,
       g := w.g.(members := w.g.members[s := With(w.g.members[s], k + 1, n)], log := w.g.log + [Started(n)]))
  }

  lemma CreateGrouped(ts: seq<Tcb>, ss: seq<As>, members: seq<seq<int>>, c: nat, k: nat, n: nat, id: Word, localid: Word)
    requires Grouped(ts, ss, members) && c < |ts| && n < |ts| && 0 <= ts[c].space < |ss| && ts[n] == EMPTY_TCB
    requires k < |members[ts[c].space]| && members[ts[c].space][k] == c
    ensures Grouped(AfterCreate(ts, c, n, id, localid), ss, members[ts[c].space := With(members[ts[c].space], k + 1, n)])
    ensures forall t {:trigger AfterCreate(ts, c, n, id, localid)[t]} :: 0 <= t < |ts| && t != n ==>
              AfterCreate(ts, c, n, id, localid)[t] == ts[t].(next := AfterCreate(ts, c, n, id, localid)[t].next)
  {
    var ts1, ts' := Linked(ts, c, n, id), AfterCreate(ts, c, n, id, localid);
    LinkedNext(ts, ss, members, c, k, n, id);
    ThreadUpdated(ts1, n, ts'[n]);
    assert SpaceOf(ts1) == SpaceOf(ts);
  }

  lemma CreateKeeps(a: Area, w: World, c: nat, k: nat, n: nat, localid: Word)
    requires Sound(a, w) && c < |w.ts| && n < |w.ts| && 0 <= w.ts[c].space < |w.ss| && w.ts[n] == EMPTY_TCB
    requires k < |w.g.members[w.ts[c].space]| && w.g.members[w.ts[c].space][k] == c
    requires localid == NILTHREAD || (IsUnit(a, localid) && Unused(w.ts, w.ts[c].space, localid))
    ensures Sound(a, ThreadCreated(w, c, k, n, localid))
  {
    CreateGrouped(w.ts, w.ss, w.g.members, c, k, n, GlobalId(w.number), localid);
    NobodyAskedYet(w.ts, w.ls, w.g, n, Started(n));
    CreateLocated(a, w.ts, w.ss, w.number, c, n, localid);
  }

  lemma CreateLocated(a: Area, ts: seq<Tcb>, ss: seq<As>, number: nat, c: nat, n: nat, localid: Word)
    requires Located(a, ts, ss) && Identified(ts, number)
    requires c < |ts| && n < |ts| && ts[c].space != NIL && ts[n] == EMPTY_TCB
    requires localid == NILTHREAD || (IsUnit(a, localid) && Unused(ts, ts[c].space, localid))
    ensures Located(a, AfterCreate(ts, c, n, GlobalId(number), localid), ss)
    ensures Identified(AfterCreate(ts, c, n, GlobalId(number), localid), number + 1)
  {
    var ts' := AfterCreate(ts, c, n, GlobalId(number), localid);
    forall t | 0 <= t < |ts| && t != n
      ensures ts'[t] == ts[t].(next := ts'[t].next)
    {
    }
    AddedIsIdentified(ts, number, n, ts'[n]);
    SameButLists(a, ts[n := ts'[n]], ts', ss, number + 1);
  }

  /** The place given to a new thread of space `s`: the lowest one that no thread of it has, or none if all are taken. */
  ghost predicate LowestPlace(a: Area, ts: seq<Tcb>, s: int, localid: Word) {
    && (localid != NILTHREAD ==> IsUnit(a, localid) && Unused(ts, s, localid))
    && forall k: nat {:trigger Unit(a, k)} ::
         Unit(a, k) < (if localid == NILTHREAD then a.start + a.size else localid) ==> !Unused(ts, s, Unit(a, k))
  }

  // ----- a caller waits -----

  lemma AskedOfOther(log: seq<Event>, e: Event, u: int)
    requires u != e.t
    ensures Asked(log + [e], u) == Asked(log, u)
  {
  }

  /** The listener `l` goes to the front of the list of `t`. Only the list of a live thread counts. */
  function CallerWaits(w: World, t: nat, l: nat, caller: Word): World
    requires t < |w.ts| && l < |w.ls| && |w.g.waiters| == |w.g.heads| == |w.ts| && |w.g.on| == |w.ls|
  {
    w.(ts := w.ts[t := w.ts[t].(waiter := l)], ls := w.ls[l := Listener(caller, w.ts[t].waiter)],
       g := if w.ts[t].space == NIL then w.g.(on := w.g.on[l := STRANDED])
            else w.g.(waiters := w.g.waiters[t := With(w.g.waiters[t], 0, l)], heads := w.g.heads[t := l],
                      on := w.g.on[l := t], log := w.g.log + [Waited(t, caller)]))
  }

  lemma WaitKeeps(a: Area, w: World, t: nat, l: nat, caller: Word)
    requires Sound(a, w) && t < |w.ts| && w.ts[t].space != NIL && l < |w.ls| && w.ls[l].who == NILTHREAD && caller != NILTHREAD
    ensures Sound(a, CallerWaits(w, t, l, caller))
  {
    var ts, ss, ls, number, g := w.ts, w.ss, w.ls, w.number, w.g;
    var ts' := ts[t := ts[t].(waiter := l)];
    var r := Listener(caller, ts[t].waiter);
    var g' := g.(waiters := g.waiters[t := With(g.waiters[t], 0, l)], heads := g.heads[t := l], on := g.on[l := t],
                 log := g.log + [Waited(t, caller)]);
    ThreadUpdated(ts, t, ts'[t]);
    ListenerUpdated(ls, l, r);
    assert NextOf(ts') == NextOf(ts) && SpaceOf(ts') == SpaceOf(ts);
    Pushed(LinkOf(ls), g.heads, g.on, g.waiters, t, l);
    WaitRemembered(ts, ls, g, t, l, caller);
    SameButLists(a, ts, ts', ss, number);
  }

  lemma WaitRemembered(ts: seq<Tcb>, ls: seq<Listener>, g: Lists, t: nat, l: nat, caller: Word)
    requires Remembered(ts, ls, g) && Partition(LinkOf(ls), g.heads, g.on, g.waiters) && t < |ts| && l < |ls| && g.on[l] < 0
    ensures Remembered(ts[t := ts[t].(waiter := l)], ls[l := Listener(caller, ts[t].waiter)],
                       g.(waiters := g.waiters[t := With(g.waiters[t], 0, l)], log := g.log + [Waited(t, caller)]))
  {
  }

  /** Ids and places do not depend on the links, and a thread that is no longer live cannot clash with others. */
  lemma SameButLists(a: Area, ts: seq<Tcb>, ts': seq<Tcb>, ss: seq<As>, number: nat)
    requires Located(a, ts, ss) && Identified(ts, number) && |ts'| == |ts|
    requires forall u {:trigger ts'[u]} :: 0 <= u < |ts| ==>
               ts'[u].globalid == ts[u].globalid && ts'[u].localid == ts[u].localid && ts'[u].space in {ts[u].space, NIL}
    ensures Located(a, ts', ss) && Identified(ts', number)
  {
  }

  /** Waiting for a thread that is gone uses a listener up. */
  lemma WaitInVain(a: Area, w: World, t: nat, l: nat, caller: Word)
    requires Sound(a, w) && t < |w.ts| && w.ts[t].space == NIL && l < |w.ls| && w.ls[l].who == NILTHREAD && caller != NILTHREAD
    ensures Sound(a, CallerWaits(w, t, l, caller))
  {
    var ts, ss, ls, number, g := w.ts, w.ss, w.ls, w.number, w.g;
    var ts' := ts[t := ts[t].(waiter := l)];
    var r := Listener(caller, ts[t].waiter);
    ThreadUpdated(ts, t, ts'[t]);
    ListenerUpdated(ls, l, r);
    assert NextOf(ts') == NextOf(ts) && SpaceOf(ts') == SpaceOf(ts);
    Aside(LinkOf(ls), g.heads, g.on, g.waiters, l, r.next, STRANDED);
    forall u | 0 <= u < |ts|
      ensures Callers(ls[l := r], g.waiters[u]) == Callers(ls, g.waiters[u])
    {
      CallersApart(ls, g, u, l, r);
    }
    assert Located(a, ts', ss);
    assert Identified(ts', number);
  }

  // ----- a thread is killed -----

  /** The listeners on list `t` are free again. */
  function Answered(ls: seq<Listener>, on: seq<int>, t: int): (r: seq<Listener>)
    requires |on| == |ls|
    ensures |r| == |ls|
    ensures forall l {:trigger r[l]} :: 0 <= l < |ls| ==> r[l] == if on[l] == t then ls[l].(who := NILTHREAD) else ls[l]
  {
    seq(|ls|, l requires 0 <= l < |ls| => if on[l] == t then ls[l].(who := NILTHREAD) else ls[l])
  }

  function Freed(on: seq<int>, t: int): (r: seq<int>)
    ensures |r| == |on|
    ensures forall l {:trigger r[l]} :: 0 <= l < |on| ==> r[l] == if on[l] == t then NIL else on[l]
  {
    seq(|on|, l requires 0 <= l < |on| => if on[l] == t then NIL else on[l])
  }

  /** The record of `t` is taken out of its space's list, and no longer live. */
  function AfterDelete(ts: seq<Tcb>, items: seq<int>, k: nat): (r: seq<Tcb>)
    requires k < |items| && forall i {:trigger items[i]} :: 0 <= i < |items| ==> 0 <= items[i] < |ts|
    ensures |r| == |ts|
  {
    var t := items[k];
    var ts1 := if k == 0 then ts else ts[items[k - 1] := ts[items[k - 1]].(next := ts[t].next)];
    ts1[t := ts1[t].(next := NIL, space := NIL)]
  }

  function HeadAfterDelete(ts: seq<Tcb>, ss: seq<As>, items: seq<int>, s: nat, k: nat): (r: seq<As>)
    requires k < |items| && 0 <= items[k] < |ts| && s < |ss|
    ensures |r| == |ss|
  {
    if k == 0 then ss[s := ss[s].(first := ts[items[0]].next)] else ss
  }

  lemma DeleteGrouped(ts: seq<Tcb>, ss: seq<As>, members: seq<seq<int>>, s: nat, k: nat)
    requires Grouped(ts, ss, members) && s < |ss| && k < |members[s]|
    ensures forall i {:trigger members[s][i]} :: 0 <= i < |members[s]| ==> 0 <= members[s][i] < |ts| && ts[members[s][i]].space == s
    ensures Grouped(AfterDelete(ts, members[s], k), HeadAfterDelete(ts, ss, members[s], s, k), members[s := Without(members[s], k)])
  {
    var items := members[s];
    var t := items[k];
    assert Chain(NextOf(ts), FirstOf(ss)[s], items);
    forall i | 0 <= i < |items|
      ensures ts[items[i]].space == s
    {
      assert SpaceOf(ts)[items[i]] == s;
    }
    var ts1 := if k == 0 then ts else ts[items[k - 1] := ts[items[k - 1]].(next := ts[t].next)];
    if k > 0 {
      ThreadUpdated(ts, items[k - 1], ts1[items[k - 1]]);
      assert SpaceOf(ts1) == SpaceOf(ts);
      assert items[k - 1] != t;
    } else {
      SpaceUpdated(ss, s, ss[s].(first := ts[t].next));
    }
    ThreadUpdated(ts1, t, ts1[t].(next := NIL, space := NIL));
    Unlinked(NextOf(ts), FirstOf(ss), SpaceOf(ts), members, s, k, NIL);
  }

  /** The `k`-th thread of space `s` is gone, and so are its listeners. */
  function ThreadKilled(w: World, s: nat, k: nat): World
    requires s < |w.ss| == |w.g.members| && k < |w.g.members[s]| && |w.g.on| == |w.ls| && |w.g.waiters| == |w.g.heads| == |w.ts|
    requires forall i {:trigger w.g.members[s][i]} :: 0 <= i < |w.g.members[s]| ==> 0 <= w.g.members[s][i] < |w.ts|
  {
    var items := w.g.members[s];
    var t := items[k];
    World(AfterDelete(w.ts, items, k), HeadAfterDelete(w.ts, w.ss, items, s, k), Answered(w.ls, w.g.on, t), w.number,
          Lists(w.g.members[s := Without(items, k)], w.g.waiters[t := []], w.g.heads[t := NIL], Freed(w.g.on, t), w.g.log + [Killed(t)]))
  }

  lemma KillKeeps(a: Area, w: World, s: nat, k: nat)
    requires Sound(a, w) && s < |w.ss| && k < |w.g.members[s]|
    ensures forall i {:trigger w.g.members[s][i]} :: 0 <= i < |w.g.members[s]| ==> 0 <= w.g.members[s][i] < |w.ts|
    ensures Sound(a, ThreadKilled(w, s, k))
  {
    var ts, ss, ls, number, g := w.ts, w.ss, w.ls, w.number, w.g;
    var t := g.members[s][k];
    DeleteGrouped(ts, ss, g.members, s, k);
    var ts', ss' := AfterDelete(ts, g.members[s], k), HeadAfterDelete(ts, ss, g.members[s], s, k);
    var w' := ThreadKilled(w, s, k);
    var ls', g' := w'.ls, w'.g;
    assert LinkOf(ls') == LinkOf(ls);
    Emptied(LinkOf(ls), g.heads, g.on, g.waiters, t, g'.on);
    DeleteTouches(ts, ss, g.members, s, k);
    forall u | 0 <= u < |ts| && u != t
      ensures Callers(ls', g.waiters[u]) == Callers(ls, g.waiters[u]) && Asked(g'.log, u) == Asked(g.log, u)
    {
      AskedOfOther(g.log, Killed(t), u);
      SameCallers(ls, g, t, u);
    }
    SameButLists(a, ts, ts', ss, number);
  }

  /** Only links, the deleted thread's space and the head of the list change. */
  lemma DeleteTouches(ts: seq<Tcb>, ss: seq<As>, members: seq<seq<int>>, s: nat, k: nat)
    requires Grouped(ts, ss, members) && s < |ss| && k < |members[s]|
    requires forall i {:trigger members[s][i]} :: 0 <= i < |members[s]| ==> 0 <= members[s][i] < |ts|
    ensures var ts', ss' := AfterDelete(ts, members[s], k), HeadAfterDelete(ts, ss, members[s], s, k);
            && |ts'| == |ts| && |ss'| == |ss|
            && (forall u {:trigger ts'[u]} :: 0 <= u < |ts| ==>
                  ts'[u] == ts[u].(next := ts'[u].next, space := if u == members[s][k] then NIL else ts[u].space))
            && (forall x {:trigger ss'[x]} :: 0 <= x < |ss| ==> ss'[x].area == ss[x].area)
  {
  }

  lemma SameCallers(ls: seq<Listener>, g: Lists, t: nat, u: nat)
    requires Partition(LinkOf(ls), g.heads, g.on, g.waiters) && u < |g.waiters| && u != t
    ensures Callers(Answered(ls, g.on, t), g.waiters[u]) == Callers(ls, g.waiters[u])
  {
  }
}
