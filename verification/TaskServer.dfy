/** The task server: requests to start tasks, create threads, wait for threads and kill them. */
module TaskServer {
  import opened Words
  import opened Wrappers
  import opened Sequences
  import opened Chains
  import opened Slots
  import opened Tasks
  import opened TaskRuns

  /** How a request ends; only `Done` sends an answer. `Faults` is the use of a null pointer. */
  datatype Outcome = Done | Panics | Overruns | Loops | Faults

  function Failure(r: Slot): Outcome
    requires !r.Found?
  {
    match r
    case Exhausted => Panics
    case Overrun => Overruns
    case Endless => Loops
  }

  /** A cursor is 0 only until the first record of its table is handed out. */
  ghost predicate FreshThreads(cursor: nat, ts: seq<Tcb>) {
    cursor == 0 ==> forall t {:trigger ts[t]} :: 0 <= t < |ts| ==> ts[t].space == NIL
  }

  ghost predicate FreshSpaces(cursor: nat, ss: seq<As>) {
    cursor == 0 ==> forall s {:trigger ss[s]} :: 0 <= s < |ss| ==> ss[s].first == NIL
  }

  ghost predicate FreshListeners(cursor: nat, ls: seq<Listener>) {
    cursor == 0 ==> forall l {:trigger ls[l]} :: 0 <= l < |ls| ==> ls[l].who == NILTHREAD
  }

  datatype Request =
    | Start(byAppPager: bool)
    | Create(caller: Word)
    | Wait(id: Word, caller: Word)
    | Terminate(id: Word)

  function FreeThread(ts: seq<Tcb>): int -> bool {
    i => 0 <= i < |ts| && ts[i].space == NIL
  }

  function FreeAs(ss: seq<As>): int -> bool {
    i => 0 <= i < |ss| && ss[i].first == NIL
  }

  function FreeListener(ls: seq<Listener>): int -> bool {
    i => 0 <= i < |ls| && ls[i].who == NILTHREAD
  }

  /** The first record with the given id, live or not. */
  ghost predicate FirstWith(ts: seq<Tcb>, id: Word, t: int) {
    if t == NIL then forall u {:trigger ts[u]} :: 0 <= u < |ts| ==> ts[u].globalid != id
    else 0 <= t < |ts| && ts[t].globalid == id && forall u {:trigger ts[u]} :: 0 <= u < t ==> ts[u].globalid != id
  }

  /** What a request asks for is what was done. */
  ghost predicate Carries(r: Request, w: World, d: Deed) {
    match r
    case Start(byAppPager) => d.Starts? && d.byAppPager == byAppPager
    case Create(caller) => d.Creates? && FirstWith(w.ts, caller, d.c)
    case Wait(id, caller) => if d.Waits? then FirstWith(w.ts, id, d.t) && d.caller == caller else d.Ignored? && FirstWith(w.ts, id, NIL)
    case Terminate(id) => d.Kills? && 0 <= d.s < |w.g.members| && d.k < |w.g.members[d.s]| && FirstWith(w.ts, id, w.g.members[d.s][d.k])
  }

  ghost predicate Serves(a: Area, w: World, r: Request, d: Deed, w': World) {
    Legal(a, w, d) && Carries(r, w, d) && w' == After(a, w, d)
  }

  /** A run that serves the first requests, in order. */
  ghost predicate ServesAll(a: Area, requests: seq<Request>, ws: seq<World>, ds: seq<Deed>) {
    && Run(a, ws, ds) && |ds| <= |requests|
    && forall i {:trigger ds[i]} :: 0 <= i < |ds| ==> Carries(requests[i], ws[i], ds[i])
  }

  lemma ServedNext(a: Area, requests: seq<Request>, ws: seq<World>, ds: seq<Deed>, d: Deed, w': World)
    requires ServesAll(a, requests, ws, ds) && |ds| < |requests| && Serves(a, ws[|ds|], requests[|ds|], d, w')
    ensures ServesAll(a, requests, ws + [w'], ds + [d])
  {
    RunExtended(a, ws, ds, d);
    forall i | 0 <= i < |ds| + 1
      ensures Carries(requests[i], (ws + [w'])[i], (ds + [d])[i])
    {
      if i < |ds| {
        assert Carries(requests[i], ws[i], ds[i]);
      }
    }
  }

  /** One of the listed threads has the local id. */
  ghost predicate Used(ts: seq<Tcb>, items: seq<int>, id: int) {
    exists i {:trigger items[i]} :: 0 <= i < |items| && 0 <= items[i] < |ts| && ts[items[i]].localid == id
  }

  /** A thread of the space is on the list with the new record. */
  lemma UsedIfTaken(ts: seq<Tcb>, ss: seq<As>, members: seq<seq<int>>, c: nat, k: nat, n: nat, number: Word, id: int, t: nat)
    requires Grouped(ts, ss, members) && c < |ts| && n < |ts| && 0 <= ts[c].space < |ss| && ts[n] == EMPTY_TCB
    requires k < |members[ts[c].space]| && t < |ts| && ts[t].space == ts[c].space && ts[t].localid == id
    ensures Used(Linked(ts, c, n, number), With(members[ts[c].space], k + 1, n), id)
  {
    var items := members[ts[c].space];
    var items' := With(members[ts[c].space], k + 1, n);
    assert SpaceOf(ts)[t] == ts[c].space && t in items;
    var j := Place(items, t);
    var i := if j < k + 1 then j else j + 1;
    assert items'[i] == t && Linked(ts, c, n, number)[t].localid == id;
  }

  /** A thread on the list with the new record that has a place is a thread of the space. */
  lemma TakenIfUsed(ts: seq<Tcb>, ss: seq<As>, members: seq<seq<int>>, c: nat, k: nat, n: nat, number: Word, id: int)
    requires Grouped(ts, ss, members) && c < |ts| && n < |ts| && 0 <= ts[c].space < |ss| && ts[n] == EMPTY_TCB
    requires k < |members[ts[c].space]| && id != NILTHREAD
    requires Used(Linked(ts, c, n, number), With(members[ts[c].space], k + 1, n), id)
    ensures !Unused(ts, ts[c].space, id)
  {
    var ts1, items := Linked(ts, c, n, number), members[ts[c].space];
    var items' := With(items, k + 1, n);
    InWith(items, k + 1, n);
    var i :| 0 <= i < |items'| && 0 <= items'[i] < |ts1| && ts1[items'[i]].localid == id;
    var t := items'[i];
    assert t in items' && t != n;
    var j := Place(items, t);
    assert SpaceOf(ts)[items[j]] == ts[c].space;
    assert ts[t].space == ts[c].space && ts[t].localid == id;
  }

  /** Being used in the list with the new record is being used by a thread of the space. */
  lemma UsedBySpace(ts: seq<Tcb>, ss: seq<As>, members: seq<seq<int>>, c: nat, k: nat, n: nat, number: Word, id: int)
    requires Grouped(ts, ss, members) && c < |ts| && n < |ts| && 0 <= ts[c].space < |ss| && ts[n] == EMPTY_TCB
    requires k < |members[ts[c].space]| && members[ts[c].space][k] == c && id != NILTHREAD
    ensures Used(Linked(ts, c, n, number), With(members[ts[c].space], k + 1, n), id) <==> !Unused(ts, ts[c].space, id)
  {
    if Used(Linked(ts, c, n, number), With(members[ts[c].space], k + 1, n), id) {
      TakenIfUsed(ts, ss, members, c, k, n, number, id);
    } else if !Unused(ts, ts[c].space, id) {
      var t :| 0 <= t < |ts| && ts[t].space == ts[c].space && ts[t].localid == id;
      UsedIfTaken(ts, ss, members, c, k, n, number, id, t);
    }
  }

  lemma PlaceFound(a: Area, ts: seq<Tcb>, ss: seq<As>, members: seq<seq<int>>, c: nat, k: nat, n: nat, number: Word, id: Word)
    requires Grouped(ts, ss, members) && c < |ts| && n < |ts| && 0 <= ts[c].space < |ss| && ts[n] == EMPTY_TCB
    requires k < |members[ts[c].space]| && members[ts[c].space][k] == c && ProperArea(a)
    requires var ts1, items := Linked(ts, c, n, number), With(members[ts[c].space], k + 1, n);
             && (id != NILTHREAD ==> IsUnit(a, id) && !Used(ts1, items, id))
             && (forall j: nat {:trigger Unit(a, j)} ::
                   Unit(a, j) < (if id == NILTHREAD then a.start + a.size else id) ==> Used(ts1, items, Unit(a, j)))
    ensures LowestPlace(a, ts, ts[c].space, id)
  {
    if id != NILTHREAD {
      UsedBySpace(ts, ss, members, c, k, n, number, id);
    }
    forall j: nat | Unit(a, j) < (if id == NILTHREAD then a.start + a.size else id)
      ensures !Unused(ts, ts[c].space, Unit(a, j))
    {
      UnitsBelow(a, j);
      UsedBySpace(ts, ss, members, c, k, n, number, Unit(a, j));
    }
  }

  /** The record of thread `t`, the `k`-th of its space, is free and out of its list; its listeners are free. */
  ghost predicate Gone(w: World, t: nat, k: nat, ts: seq<Tcb>, ss: seq<As>, ls: seq<Listener>)
    requires t < |w.ts| && 0 <= w.ts[t].space < |w.ss| == |w.g.members| && |w.g.on| == |w.ls|
  {
    var s := w.ts[t].space;
    && |ts| == |w.ts| && |ls| == |w.ls| && k < |w.g.members[s]|
    && (forall u {:trigger ts[u]} :: 0 <= u < |ts| ==>
          ts[u] == if u == t then w.ts[t].(next := NIL, space := NIL)
                   else if k > 0 && u == w.g.members[s][k - 1] then w.ts[u].(next := w.ts[t].next) else w.ts[u])
    && ss == (if k == 0 then w.ss[s := w.ss[s].(first := w.ts[t].next)] else w.ss)
    && (forall l {:trigger ls[l]} :: 0 <= l < |ls| ==> ls[l] == if w.g.on[l] == t then w.ls[l].(who := NILTHREAD) else w.ls[l])
  }

  lemma GoneWhenKilled(a: Area, w: World, s: nat, k: nat)
    requires Sound(a, w) && s < |w.ss| && k < |w.g.members[s]|
    ensures forall i {:trigger w.g.members[s][i]} :: 0 <= i < |w.g.members[s]| ==> 0 <= w.g.members[s][i] < |w.ts|
    ensures var t, v := w.g.members[s][k], ThreadKilled(w, s, k);
            w.ts[t].space == s && Gone(w, t, k, v.ts, v.ss, v.ls)
  {
    MembersLive(a, w, s, k);
  }

  lemma CreatedRecords(w: World, c: nat, k: nat, n: nat, localid: Word)
    requires c < |w.ts| && n < |w.ts| && n != c && 0 <= w.ts[c].space < |w.g.members| && k < |w.g.members[w.ts[c].space]|
    ensures ThreadCreated(w.(ts := w.ts[n := EMPTY_TCB]), c, k, n, localid).ts ==
            w.ts[c := w.ts[c].(next := n)][n := Tcb(GlobalId(w.number), localid, w.ts[c].space, w.ts[c].next, NIL)]
  {
  }

  class TaskServer {
    const area: Area
    const threads: array<Tcb>
    const spaces: array<As>
    const listeners: array<Listener>
    var nextThread: nat
    var nextSpace: nat
    var nextListener: nat
    var number: nat
    ghost var w: World

    ghost predicate Valid()
      reads this, threads, spaces, listeners
    {
      && threads[..] == w.ts && spaces[..] == w.ss && listeners[..] == w.ls && number == w.number
      && nextThread <= THREADS && nextSpace <= SPACES && nextListener <= LISTENERS
      && FreshThreads(nextThread, w.ts) && FreshSpaces(nextSpace, w.ss) && FreshListeners(nextListener, w.ls)
      && Sound(area, w)
    }

    constructor (area: Area, number: nat)
      requires ProperArea(area)
      ensures Valid() && fresh(threads) && fresh(spaces) && fresh(listeners)
      ensures w.g.log == [] && forall s :: 0 <= s < SPACES ==> w.g.members[s] == []
      ensures nextThread == nextSpace == nextListener == 0 && w.ts == seq(THREADS, _ => EMPTY_TCB)
      ensures threads.Length == 256 && spaces.Length == 64 && listeners.Length == 256
    {
      this.area, this.number := area, number;
      threads := new Tcb[THREADS](_ => EMPTY_TCB);
      spaces := new As[SPACES](_ => EMPTY_AS);
      listeners := new Listener[LISTENERS](_ => EMPTY_LISTENER);
      nextThread, nextSpace, nextListener := 0, 0, 0;
      w := World(seq(THREADS, _ => EMPTY_TCB), seq(SPACES, _ => EMPTY_AS), seq(LISTENERS, _ => EMPTY_LISTENER), number,
                 Lists(seq(SPACES, _ => []), seq(THREADS, _ => []), seq(THREADS, _ => NIL), seq(LISTENERS, _ => NIL), []));
    }

    /** A free thread record, cleared. */
    method GetFreeTcb() returns (r: Slot)
      requires Valid()
      modifies this`nextThread, this`w, threads
      ensures Valid()
      ensures !r.Endless? && (r.Overrun? <==> old(nextThread) == THREADS)
      ensures r.Found? <==> Reaches(FreeThread(old(w).ts), THREADS, old(nextThread))
      ensures r.Found? ==> nextThread == r.i + 1 && FirstFrom(FreeThread(old(w).ts), THREADS, old(nextThread), r.i)
      ensures r.Found? ==> r.i < THREADS && old(w).ts[r.i].space == NIL && w == old(w).(ts := old(w).ts[r.i := EMPTY_TCB])
      ensures !r.Found? ==> w == old(w)
    {
      r := Scan(FreeThread(threads[..]), THREADS, nextThread);
      if nextThread == 0 {
        UnderCursor(FreeThread(w.ts), THREADS, 0);
      }
      if r.Found? {
        WipeKeeps(area, w, r.i);
        threads[r.i] := EMPTY_TCB;
        nextThread := r.i + 1;
        w := w.(ts := w.ts[r.i := EMPTY_TCB]);
      }
    }

    /** A free address space, cleared. */
    method GetFreeAs() returns (r: Slot)
      requires Valid()
      modifies this`nextSpace, this`w, spaces
      ensures Valid()
      ensures !r.Endless? && (r.Overrun? <==> old(nextSpace) == SPACES)
      ensures r.Found? <==> Reaches(FreeAs(old(w).ss), SPACES, old(nextSpace))
      ensures r.Found? ==> nextSpace == r.i + 1 && FirstFrom(FreeAs(old(w).ss), SPACES, old(nextSpace), r.i)
      ensures r.Found? ==> r.i < SPACES && old(w).ss[r.i].first == NIL && w == old(w).(ss := old(w).ss[r.i := EMPTY_AS])
      ensures !r.Found? ==> w == old(w)
    {
      r := Scan(FreeAs(spaces[..]), SPACES, nextSpace);
      if nextSpace == 0 {
        UnderCursor(FreeAs(w.ss), SPACES, 0);
      }
      if r.Found? {
        WipeSpaceKeeps(area, w, r.i);
        spaces[r.i] := EMPTY_AS;
        nextSpace := r.i + 1;
        w := w.(ss := w.ss[r.i := EMPTY_AS]);
      }
    }

    /** A free listener, cleared. */
    method GetFreeListener() returns (r: Slot)
      requires Valid()
      modifies this`nextListener, this`w, listeners
      ensures Valid()
      ensures !r.Endless? && (r.Overrun? <==> old(nextListener) == LISTENERS)
      ensures r.Found? <==> Reaches(FreeListener(old(w).ls), LISTENERS, old(nextListener))
      ensures r.Found? ==> nextListener == r.i + 1 && FirstFrom(FreeListener(old(w).ls), LISTENERS, old(nextListener), r.i)
      ensures r.Found? ==> r.i < LISTENERS && old(w).ls[r.i].who == NILTHREAD && w == old(w).(ls := old(w).ls[r.i := EMPTY_LISTENER])
      ensures !r.Found? ==> w == old(w)
    {
      r := Scan(FreeListener(listeners[..]), LISTENERS, nextListener);
      if nextListener == 0 {
        UnderCursor(FreeListener(w.ls), LISTENERS, 0);
      }
      if r.Found? {
        WipeListenerKeeps(area, w, r.i);
        listeners[r.i] := EMPTY_LISTENER;
        nextListener := r.i + 1;
        w := w.(ls := w.ls[r.i := EMPTY_LISTENER]);
      }
    }

    method FindTcb(id: Word) returns (t: int)
      ensures FirstWith(threads[..], id, t)
    {
      t := 0;
      while t < threads.Length
        invariant 0 <= t <= threads.Length
        invariant forall u {:trigger threads[u]} :: 0 <= u < t ==> threads[u].globalid != id
      {
        if threads[t].globalid == id {
          return;
        }
        t := t + 1;
      }
      t := NIL;
    }

    /** The lowest place in the area that no listed thread uses, or nil. */
    method GetFreeLocalId(s: nat, ghost items: seq<int>) returns (id: Word)
      requires ProperArea(area) && s < spaces.Length && spaces[s].area == area
      requires Chain(NextOf(threads[..]), spaces[s].first, items)
      ensures id != NILTHREAD ==> IsUnit(area, id) && !Used(threads[..], items, id)
      ensures forall k: nat {:trigger Unit(area, k)} ::
                Unit(area, k) < (if id == NILTHREAD then area.start + area.size else id) ==> Used(threads[..], items, Unit(area, k))
    {
      var a := spaces[s].area;
      ghost var n: nat := 0;
      id := a.start;
      UnitsBelow(a, n);
      while id < a.start + a.size
        invariant id == Unit(a, n)
        invariant forall k: nat {:trigger Unit(a, k)} :: k < n ==> Used(threads[..], items, Unit(a, k))
        decreases a.start + a.size - id
      {
        UnitsBelow(a, n);
        var used := FindLocalId(spaces[s].first, id, items);
        if !used {
          return;
        }
        id := id + a.unit;
        n := n + 1;
      }
      UnitsBelow(a, n);
      id := NILTHREAD;
    }

    /** Whether a thread on the list has the local id. */
    method FindLocalId(first: int, id: Word, ghost items: seq<int>) returns (used: bool)
      requires Chain(NextOf(threads[..]), first, items)
      ensures used <==> Used(threads[..], items, id)
    {
      var cur := first;
      ghost var k: nat := 0;
      while cur != NIL
        invariant k <= |items| && cur == if k < |items| then items[k] else NIL
        invariant forall j {:trigger items[j]} :: 0 <= j < k ==> threads[items[j]].localid != id
        decreases |items| - k
      {
        if threads[cur].localid == id {
          return true;
        }
        assert NextOf(threads[..])[items[k]] == threads[cur].next;
        cur := threads[cur].next;
        k := k + 1;
      }
      return false;
    }

    // ----- requests -----

    /** A new task: a new space with a single thread, whose control block is the first of the area. */
    method StartTask(byAppPager: bool) returns (o: Outcome, id: Word, t: int, s: int)
      requires Valid()
      modifies this`nextThread, this`nextSpace, this`number, this`w, threads, spaces
      ensures Valid()
      ensures o.Done? <==>
                Reaches(FreeThread(old(w).ts), THREADS, old(nextThread)) && Reaches(FreeAs(old(w).ss), SPACES, old(nextSpace))
      ensures !o.Loops? && !o.Faults?
      ensures o.Overruns? <==>
                || old(nextThread) == THREADS
                || (Reaches(FreeThread(old(w).ts), THREADS, old(nextThread)) && old(nextSpace) == SPACES)
      ensures o.Done? ==>
                && FirstFrom(FreeThread(old(w).ts), THREADS, old(nextThread), t) && nextThread == t + 1
                && FirstFrom(FreeAs(old(w).ss), SPACES, old(nextSpace), s) && nextSpace == s + 1
      ensures o.Done? ==>
                && 0 <= t < THREADS && old(w).ts[t].space == NIL && 0 <= s < SPACES && old(w).ss[s].first == NIL
                && id == GlobalId(old(w).number) && w == TaskStarted(area, old(w), t, s, byAppPager)
      ensures o.Done? ==>
                && threads[..] == old(threads[..])[t := Tcb(id, area.start, s, NIL, NIL)]
                && spaces[..] == old(spaces[..])[s := As(area, byAppPager, t)]
                && number == old(number) + 1 && id == old(number) % 0x4_0000 * 0x4000 + 1
      ensures !o.Done? ==> w == old(w).(ts := w.ts)
    {
      id, t, s := NILTHREAD, NIL, NIL;
      var thread := GetFreeTcb();
      if !thread.Found? {
        return Failure(thread), id, t, s;
      }
      var space := GetFreeAs();
      if !space.Found? {
        return Failure(space), id, t, s;
      }
      t, s := thread.i, space.i;
      ClearedFirst(area, old(w), t, s, byAppPager);
      id := Launch(t, s, byAppPager);
      o := Done;
    }

    /** Fills in the records of a new task. */
    method Launch(t: nat, s: nat, byAppPager: bool) returns (id: Word)
      requires Valid() && t < THREADS && w.ts[t] == EMPTY_TCB && s < SPACES && w.ss[s].first == NIL
      requires nextThread > 0 && nextSpace > 0
      modifies this`w, this`number, threads, spaces
      ensures Valid()
      ensures id == GlobalId(old(w).number) && w == TaskStarted(area, old(w), t, s, byAppPager)
    {
      StartKeeps(area, w, t, s, byAppPager);
      spaces[s] := spaces[s].(first := t);
      threads[t] := threads[t].(space := s);
      id := GlobalId(number);
      number := number + 1;
      threads[t] := threads[t].(globalid := id);
      spaces[s] := spaces[s].(area := area);
      threads[t] := threads[t].(localid := area.start);
      spaces[s] := spaces[s].(byAppPager := byAppPager);
      w := TaskStarted(area, w, t, s, byAppPager);
    }

    /** A new thread in the caller's space, listed behind the caller, with the lowest place in the area that is free. */
    method CreateThread(caller: Word) returns (o: Outcome, id: Word, c: int, n: int, ghost k: nat)
      requires Valid()
      modifies this, threads
      ensures !o.Faults? ==> Valid()
      ensures FirstWith(old(w).ts, caller, c)
      ensures o.Done? <==> c != NIL && old(w).ts[c].space != NIL && Reaches(FreeThread(old(w).ts), THREADS, old(nextThread))
      ensures !o.Loops? && (o.Overruns? <==> c != NIL && old(nextThread) == THREADS)
      ensures o.Faults? <==> c == NIL || (old(w).ts[c].space == NIL && Reaches(FreeThread(old(w).ts), THREADS, old(nextThread)))
      ensures o.Done? ==> FirstFrom(FreeThread(old(w).ts), THREADS, old(nextThread), n) && nextThread == n + 1
      ensures o.Done? ==>
                var s := old(w).ts[c].space;
                && 0 <= n < THREADS && old(w).ts[n].space == NIL && 0 <= s < |old(w).g.members|
                && k < |old(w).g.members[s]| && old(w).g.members[s][k] == c
                && id == GlobalId(old(w).number) && LowestPlace(area, old(w).ts, s, threads[n].localid)
                && w == ThreadCreated(old(w).(ts := old(w).ts[n := EMPTY_TCB]), c, k, n, threads[n].localid)
      ensures o.Done? ==>
                && 0 <= c < THREADS && 0 <= n < THREADS && n != c
                && threads[..] == old(threads[..])[c := old(threads[c]).(next := n)]
                                                  [n := Tcb(id, threads[n].localid, old(threads[c]).space, old(threads[c]).next, NIL)]
                && number == old(number) + 1 && id == old(number) % 0x4_0000 * 0x4000 + 1
      ensures !o.Done? && !o.Faults? ==> w == old(w)
    {
      id, n, k := NILTHREAD, NIL, 0;
      c := FindTcb(caller);
      if c == NIL {
        return Faults, id, c, n, k;
      }
      var space := threads[c].space;
      var thread := GetFreeTcb();
      if !thread.Found? {
        return Failure(thread), id, c, n, k;
      }
      n := thread.i;
      if space == NIL {
        // the records are linked before the space's area is looked up
        return Faults, id, c, n, k;
      }
      // the number is taken before the search for a record; a search that fails ends the server
      id := GlobalId(number);
      k := Enlist(c, n, id, space);
      SamePlaces(area, old(w).ts, n, space, threads[n].localid);
      CreatedRecords(old(w), c, k, n, threads[n].localid);
      o := Done;
    }

    /** Fills in and links the record of a new thread. */
    method Enlist(c: int, n: int, id: Word, s: int) returns (ghost k: nat)
      requires Valid() && 0 <= c < THREADS && 0 <= n < THREADS && w.ts[c].space == s != NIL && w.ts[n] == EMPTY_TCB
      requires id == GlobalId(number) && nextThread > 0
      modifies this`w, this`number, threads
      ensures Valid()
      ensures 0 <= s < |old(w).g.members| && k < |old(w).g.members[s]| && old(w).g.members[s][k] == c
      ensures LowestPlace(area, old(w).ts, s, threads[n].localid)
      ensures w == ThreadCreated(old(w), c, k, n, threads[n].localid)
    {
      k := ReadyToLink(c, n, id, s);
      LinkAndPlace(c, n, id, s, k);
      number := number + 1;
      CreateKeeps(area, w, c, k, n, threads[n].localid);
      w := ThreadCreated(w, c, k, n, threads[n].localid);
    }

    lemma ReadyToLink(c: nat, n: nat, id: Word, s: int) returns (k: nat)
      requires Valid() && c < THREADS && n < THREADS && w.ts[c].space == s != NIL && w.ts[n] == EMPTY_TCB
      ensures 0 <= s < SPACES == |w.g.members| && k < |w.g.members[s]| && w.g.members[s][k] == c && w.ss[s].area == area
      ensures Chain(NextOf(Linked(w.ts, c, n, id)), w.ss[s].first, With(w.g.members[s], k + 1, n))
    {
      assert SpaceOf(w.ts)[c] == s;
      k := Place(w.g.members[s], c);
      LinkedNext(w.ts, w.ss, w.g.members, c, k, n, id);
    }

    /** The records of a new thread and its creator. */
    method LinkAndPlace(c: int, n: int, id: Word, s: int, ghost k: nat)
      requires Valid() && 0 <= c < THREADS && 0 <= n < THREADS && w.ts[c].space == s && w.ts[n] == EMPTY_TCB
      requires 0 <= s < SPACES && w.ss[s].area == area && k < |w.g.members[s]| && w.g.members[s][k] == c
      requires Chain(NextOf(Linked(w.ts, c, n, id)), w.ss[s].first, With(w.g.members[s], k + 1, n))
      modifies threads
      ensures threads[..] == AfterCreate(w.ts, c, n, id, threads[n].localid)
      ensures LowestPlace(area, w.ts, s, threads[n].localid)
    {
      Link(c, n, id);
      var localid := GetFreeLocalId(s, With(w.g.members[s], k + 1, n));
      PlaceFound(area, w.ts, w.ss, w.g.members, c, k, n, id, localid);
      threads[n] := threads[n].(localid := localid);
      threads[n] := threads[n].(space := s);
      assert threads[..] == AfterCreate(w.ts, c, n, id, localid);
    }

    /** Links a new record in behind its creator's. */
    method Link(c: int, n: int, id: Word)
      requires 0 <= c < threads.Length && 0 <= n < threads.Length
      modifies threads
      ensures threads[..] == Linked(old(threads[..]), c, n, id)
    {
      threads[n] := threads[n].(next := threads[c].next);
      threads[c] := threads[c].(next := n);
      threads[n] := threads[n].(globalid := id);
    }

    /** A caller waits for a thread. An unknown thread is answered for at once, with all bits set; otherwise the answer
        is kept back. Whether the thread is still live is not looked at. */
    method WaitTid(id: Word, caller: Word) returns (o: Outcome, answer: Option<Word>, t: int, l: int)
      requires Valid() && caller != NILTHREAD
      modifies this, threads, listeners
      ensures Valid()
      ensures FirstWith(old(w).ts, id, t)
      ensures o.Done? <==> t == NIL || Reaches(FreeListener(old(w).ls), LISTENERS, old(nextListener))
      ensures !o.Loops? && !o.Faults? && (o.Overruns? <==> t != NIL && old(nextListener) == LISTENERS)
      ensures o.Done? && t != NIL ==> FirstFrom(FreeListener(old(w).ls), LISTENERS, old(nextListener), l) && nextListener == l + 1
      ensures o.Done? && t != NIL ==> (w.g.on[l] >= 0 <==> old(w).ts[t].space != NIL)
      ensures o.Done? && t == NIL ==> answer == Some(MAX) && w == old(w)
      ensures o.Done? && t != NIL ==>
                && answer == None && 0 <= l < LISTENERS && old(w).ls[l].who == NILTHREAD
                && w == CallerWaits(old(w).(ls := old(w).ls[l := EMPTY_LISTENER]), t, l, caller)
      ensures o.Done? && t != NIL ==>
                && threads[..] == old(threads[..])[t := old(threads[t]).(waiter := l)]
                && listeners[..] == old(listeners[..])[l := Listener(caller, old(threads[t]).waiter)]
      ensures !o.Done? ==> w == old(w)
    {
      answer, l := None, NIL;
      t := FindTcb(id);
      if t == NIL {
        return Done, Some(MAX), t, l;
      }
      var listener := GetFreeListener();
      if !listener.Found? {
        return Failure(listener), answer, t, l;
      }
      l := listener.i;
      Enqueue(t, l, caller);
      o := Done;
    }

    /** Puts a caller in front of a thread's listeners. */
    method Enqueue(t: nat, l: nat, caller: Word)
      requires Valid() && t < THREADS && l < LISTENERS && w.ls[l].who == NILTHREAD && caller != NILTHREAD && nextListener > 0
      modifies this`w, threads, listeners
      ensures Valid()
      ensures w == CallerWaits(old(w), t, l, caller)
    {
      if w.ts[t].space == NIL {
        WaitInVain(area, w, t, l, caller);
      } else {
        WaitKeeps(area, w, t, l, caller);
      }
      listeners[l] := listeners[l].(who := caller);
      listeners[l] := listeners[l].(next := threads[t].waiter);
      threads[t] := threads[t].(waiter := l);
      w := CallerWaits(w, t, l, caller);
    }

    /** A thread is killed: every caller that waited for it is answered once, and its records are free again. */
    method Kill(id: Word) returns (o: Outcome, replies: seq<Word>, t: int, ghost k: nat)
      requires Valid()
      modifies this`w, threads, spaces, listeners
      ensures Valid()
      ensures FirstWith(old(w).ts, id, t)
      ensures o == if t == NIL then Panics else if old(w).ts[t].space == NIL then Faults else Done
      ensures o.Done? ==>
                var s := old(w).ts[t].space;
                && 0 <= s < SPACES && k < |old(w).g.members[s]| && old(w).g.members[s][k] == t
                && replies == Asked(old(w).g.log, t)
                && w == ThreadKilled(old(w), s, k)
      ensures o.Done? ==> Gone(old(w), t, k, threads[..], spaces[..], listeners[..])
      ensures !o.Done? ==> w == old(w)
    {
      replies, k := [], 0;
      t := FindTcb(id);
      if t == NIL {
        return Panics, replies, t, k;
      }
      if threads[t].space == NIL {
        // the pager of the thread's space is looked up
        return Faults, replies, t, k;
      }
      k := ReadyToKill(t);
      replies := Answer(threads[t].waiter, w.g.waiters[t]);
      GoneWhenKilled(area, w, w.ts[t].space, k);
      DeleteTcb(t, k);
      o := Done;
    }

    method HandleStart(byAppPager: bool) returns (o: Outcome, ghost d: Deed)
      requires Valid()
      modifies this, threads, spaces
      ensures Valid() && !o.Loops?
      ensures o.Done? ==> Serves(area, old(w), Start(byAppPager), d, w)
    {
      var id, t, s;
      o, id, t, s := StartTask(byAppPager);
      d := Starts(t, s, byAppPager);
    }

    method HandleCreate(caller: Word) returns (o: Outcome, ghost d: Deed)
      requires Valid()
      modifies this, threads
      ensures !o.Loops? && (o.Done? ==> Valid())
      ensures o.Done? ==> Serves(area, old(w), Create(caller), d, w)
    {
      var id, c, n;
      ghost var k;
      o, id, c, n, k := CreateThread(caller);
      d := if o.Done? then Creates(c, k, n, threads[n].localid) else Ignored;
    }

    method HandleWait(id: Word, caller: Word) returns (o: Outcome, ghost d: Deed)
      requires Valid() && caller != NILTHREAD
      modifies this, threads, listeners
      ensures Valid() && !o.Loops?
      ensures o.Done? ==> Serves(area, old(w), Wait(id, caller), d, w)
    {
      var answer, t, l;
      o, answer, t, l := WaitTid(id, caller);
      d := if t == NIL then Ignored else Waits(t, l, caller);
      if o.Done? && t != NIL {
        WaitCleared(old(w), t, l, caller);
      }
    }

    method HandleTerminate(id: Word) returns (o: Outcome, ghost d: Deed)
      requires Valid()
      modifies this`w, threads, spaces, listeners
      ensures Valid() && !o.Loops?
      ensures o.Done? ==> Serves(area, old(w), Terminate(id), d, w)
    {
      var replies, t;
      ghost var k;
      o, replies, t, k := Kill(id);
      d := if o.Done? then Kills(old(w).ts[t].space, k) else Ignored;
    }

    /** One request; a request that does not succeed ends the server. */
    method Handle(r: Request) returns (o: Outcome, ghost d: Deed)
      requires Valid() && (r.Wait? ==> r.caller != NILTHREAD)
      modifies this, threads, spaces, listeners
      ensures !o.Loops? && (o.Done? ==> Valid())
      ensures o.Done? ==> Serves(area, old(w), r, d, w)
    {
      match r {
        case Start(byAppPager) => o, d := HandleStart(byAppPager);
        case Create(caller) => o, d := HandleCreate(caller);
        case Wait(id, caller) => o, d := HandleWait(id, caller);
        case Terminate(id) => o, d := HandleTerminate(id);
      }
    }

    /** Requests are served in order until one does not succeed; what happens to the tables is a run. */
    method Serve(requests: seq<Request>) returns (o: Outcome, n: nat, ghost ws: seq<World>, ghost ds: seq<Deed>)
      requires Valid() && forall i :: 0 <= i < |requests| && requests[i].Wait? ==> requests[i].caller != NILTHREAD
      modifies this, threads, spaces, listeners
      ensures ServesAll(area, requests, ws, ds) && n == |ds| && ws[0] == old(w)
      ensures !o.Loops? && (o.Done? <==> n == |requests|)
      ensures o.Done? ==> Valid() && w == ws[n]
    {
      o, n, ws, ds := Done, 0, [w], [];
      while n < |requests|
        invariant Valid() && o.Done?
        invariant ServesAll(area, requests, ws, ds) && n == |ds| && ws[0] == old(w) && ws[n] == w
      {
        ghost var d;
        o, d := Handle(requests[n]);
        if !o.Done? {
          return;
        }
        ServedNext(area, requests, ws, ds, d, w);
        ws, ds, n := ws + [w], ds + [d], n + 1;
      }
    }

    lemma ReadyToKill(t: nat) returns (k: nat)
      requires Valid() && t < THREADS && w.ts[t].space != NIL
      ensures var s := w.ts[t].space;
              && 0 <= s < SPACES == |w.g.members| && k < |w.g.members[s]| && w.g.members[s][k] == t
              && Chain(NextOf(w.ts), w.ss[s].first, w.g.members[s])
      ensures Chain(LinkOf(w.ls), w.ts[t].waiter, w.g.waiters[t]) && Callers(w.ls, w.g.waiters[t]) == Asked(w.g.log, t)
      ensures forall l {:trigger w.ls[l]} :: 0 <= l < LISTENERS ==> (l in w.g.waiters[t] <==> w.g.on[l] == t)
    {
      var s := w.ts[t].space;
      assert SpaceOf(w.ts)[t] == s;
      k := Place(w.g.members[s], t);
      assert Chain(NextOf(w.ts), FirstOf(w.ss)[s], w.g.members[s]);
      assert Chain(LinkOf(w.ls), w.g.heads[t], w.g.waiters[t]);
      forall l | 0 <= l < LISTENERS && w.g.on[l] != t
        ensures l !in w.g.waiters[t]
      {
        NotOn(LinkOf(w.ls), w.g.heads, w.g.on, w.g.waiters, l, t);
      }
    }

    /** The callers kept in a list of listeners, in order. */
    method Answer(first: int, ghost items: seq<int>) returns (replies: seq<Word>)
      requires Chain(LinkOf(listeners[..]), first, items)
      ensures replies == Callers(listeners[..], items)
    {
      var cur := first;
      ghost var i: nat := 0;
      replies := [];
      while cur != NIL
        invariant i <= |items| && cur == if i < |items| then items[i] else NIL
        invariant replies == Callers(listeners[..], items[..i])
        decreases |items| - i
      {
        assert LinkOf(listeners[..])[items[i]] == listeners[cur].next;
        assert Callers(listeners[..], items[..i + 1]) == Callers(listeners[..], items[..i]) + [listeners[cur].who];
        replies := replies + [listeners[cur].who];
        cur := listeners[cur].next;
        i := i + 1;
      }
      assert items[..i] == items;
    }

    method DeleteTcb(t: int, ghost k: nat)
      requires Valid() && 0 <= t < THREADS && 0 <= w.ts[t].space < SPACES == |w.g.members|
      requires k < |w.g.members[w.ts[t].space]| && w.g.members[w.ts[t].space][k] == t
      modifies this`w, threads, spaces, listeners
      ensures Valid()
      ensures w == ThreadKilled(old(w), old(w).ts[t].space, k)
    {
      var s := threads[t].space;
      ghost var j := ReadyToKill(t);
      KillKeeps(area, w, s, k);
      FreeListeners(threads[t].waiter, w.g.waiters[t], t, w.g.on);
      Unlink(t, s, w.g.members[s], k);
      w := ThreadKilled(w, s, k);
    }

    /** Marks the listeners of a list as free. */
    method FreeListeners(first: int, ghost items: seq<int>, ghost t: int, ghost on: seq<int>)
      requires Chain(LinkOf(listeners[..]), first, items) && |on| == listeners.Length
      requires forall l {:trigger listeners[l]} :: 0 <= l < listeners.Length ==> (l in items <==> on[l] == t)
      modifies listeners
      ensures listeners[..] == Answered(old(listeners[..]), on, t)
    {
      var cur := first;
      ghost var i: nat := 0;
      while cur != NIL
        invariant i <= |items| && cur == if i < |items| then items[i] else NIL
        invariant forall l {:trigger listeners[l]} :: 0 <= l < listeners.Length ==>
                    listeners[l] == if l in items[..i] then old(listeners[l]).(who := NILTHREAD) else old(listeners[l])
        decreases |items| - i
      {
        assert LinkOf(old(listeners[..]))[items[i]] == old(listeners[cur].next);
        assert items[..i + 1] == items[..i] + [cur];
        listeners[cur] := listeners[cur].(who := NILTHREAD);
        cur := listeners[cur].next;
        i := i + 1;
      }
      assert items[..i] == items;
    }

    /** Takes a thread's record out of the list of its space. */
    method Unlink(t: int, s: int, ghost items: seq<int>, ghost k: nat)
      requires 0 <= t < threads.Length && 0 <= s < spaces.Length && k < |items| && items[k] == t
      requires Chain(NextOf(threads[..]), spaces[s].first, items)
      modifies threads, spaces
      ensures forall i {:trigger items[i]} :: 0 <= i < |items| ==> 0 <= items[i] < threads.Length
      ensures threads[..] == AfterDelete(old(threads[..]), items, k)
      ensures spaces[..] == HeadAfterDelete(old(threads[..]), old(spaces[..]), items, s, k)
    {
      if spaces[s].first == t {
        spaces[s] := spaces[s].(first := threads[t].next);
      } else {
        var cur := spaces[s].first;
        ghost var i: nat := 0;
        while threads[cur].next != t && threads[cur].next != NIL
          invariant i < k && cur == items[i]
          decreases k - i
        {
          assert NextOf(threads[..])[items[i]] == threads[cur].next == items[i + 1];
          cur := threads[cur].next;
          i := i + 1;
        }
        assert NextOf(threads[..])[items[i]] == threads[cur].next == items[i + 1];
        threads[cur] := threads[cur].(next := threads[t].next);
      }
      threads[t] := threads[t].(next := NIL);
      threads[t] := threads[t].(space := NIL);
    }
  }

  // ----- two runs that end badly -----

  /** The first `n` threads are the only ones of the first `n` spaces, and the others are free. */
  ghost predicate Filled(w: World, n: nat) {
    && |w.ts| == THREADS && |w.ss| == SPACES && n <= SPACES
    && (forall t {:trigger w.ts[t]} :: 0 <= t < THREADS ==> w.ts[t].space == if t < n then t else NIL)
    && (forall s {:trigger w.ss[s]} :: n <= s < SPACES ==> w.ss[s].first == NIL)
  }

  lemma FilledNext(a: Area, w: World, n: nat)
    requires ProperArea(a) && Filled(w, n) && n < SPACES == |w.g.members|
    ensures Filled(TaskStarted(a, w, n, n, true), n + 1)
  {
  }

  /** Starts a task on the next records of the tables. */
  method StartNext(server: TaskServer) returns (id: Word)
    requires server.Valid() && server.nextThread == server.nextSpace < SPACES && Filled(server.w, server.nextSpace)
    modifies server, server.threads, server.spaces
    ensures server.Valid() && server.nextThread == server.nextSpace == old(server.nextSpace) + 1
    ensures Filled(server.w, server.nextSpace) && server.nextListener == old(server.nextListener)
    ensures id == GlobalId(old(server.w).number)
    ensures server.w == TaskStarted(server.area, old(server.w), old(server.nextThread), old(server.nextSpace), true)
  {
    UnderCursor(FreeThread(server.w.ts), THREADS, server.nextThread);
    UnderCursor(FreeAs(server.w.ss), SPACES, server.nextSpace);
    FilledNext(server.area, server.w, server.nextSpace);
    var o, t, s;
    o, id, t, s := server.StartTask(true);
  }

  /** The record in slot `t` is the only one with the id. */
  ghost predicate OnlyWith(ts: seq<Tcb>, id: Word, t: int) {
    forall u {:trigger ts[u]} :: 0 <= u < |ts| ==> (ts[u].globalid == id <==> u == t)
  }

  method KillOnly(server: TaskServer, id: Word, ghost t: int)
    requires server.Valid() && 0 <= t < THREADS && server.w.ts[t].space != NIL && OnlyWith(server.w.ts, id, t)
    modifies server`w, server.threads, server.spaces, server.listeners
    ensures server.Valid() && OnlyWith(server.w.ts, id, t) && server.w.ts[t].space == NIL
  {
    var o, replies, t1;
    ghost var k;
    o, replies, t1, k := server.Kill(id);
  }

  method StartAlone(area: Area, number: nat) returns (server: TaskServer, id: Word)
    requires ProperArea(area)
    ensures fresh(server) && fresh(server.threads) && fresh(server.spaces) && fresh(server.listeners)
    ensures server.Valid() && server.nextThread == server.nextSpace == 1 && Filled(server.w, 1) && server.nextListener == 0
    ensures OnlyWith(server.w.ts, id, 0)
  {
    server := new TaskServer(area, number);
    id := StartNext(server);
  }

  /** A task is started and killed, and then someone waits for it: the caller is kept waiting, and nobody will answer it. */
  method WaitForKilled(area: Area, number: nat, caller: Word) returns (server: TaskServer, o: Outcome, answer: Option<Word>, l: int)
    requires ProperArea(area) && caller != NILTHREAD
    ensures server.Valid()
    ensures o.Done? && answer == None
    ensures 0 <= l < LISTENERS && server.w.ls[l].who == caller && server.w.g.on[l] == STRANDED
  {
    var id;
    server, id := StartAlone(area, number);
    KillOnly(server, id, 0);
    UnderCursor(FreeListener(server.w.ls), LISTENERS, 0);
    var t;
    o, answer, t, l := server.WaitTid(id, caller);
  }

  /** A task in every space. */
  method FillSpaces(area: Area, number: nat) returns (server: TaskServer, id: Word)
    requires ProperArea(area)
    ensures fresh(server) && fresh(server.threads) && fresh(server.spaces) && fresh(server.listeners)
    ensures server.Valid() && server.nextThread == server.nextSpace == SPACES && Filled(server.w, SPACES)
    ensures server.w.ts[SPACES - 1].globalid == id
  {
    server, id := StartAlone(area, number);
    while server.nextSpace < SPACES
      invariant fresh(server) && fresh(server.threads) && fresh(server.spaces) && fresh(server.listeners)
      invariant server.Valid() && 0 < server.nextThread == server.nextSpace && Filled(server.w, server.nextSpace)
      invariant server.w.ts[server.nextThread - 1].globalid == id
      decreases SPACES - server.nextSpace
    {
      id := StartNext(server);
    }
  }

  /** Kills a task that is alone in its space. */
  method EmptySpace(server: TaskServer, id: Word) returns (s: int)
    requires server.Valid() && Filled(server.w, SPACES) && server.w.ts[SPACES - 1].globalid == id
    modifies server`w, server.threads, server.spaces, server.listeners
    ensures server.Valid() && server.w.ts[SPACES].space == NIL
    ensures 0 <= s < SPACES && server.w.ss[s].first == NIL
  {
    var o, replies;
    ghost var k;
    o, replies, s, k := server.Kill(id);
    FreeSpace(server.w.ts, server.w.ss, server.w.g.members, s);
  }

  /** As many tasks are started as there are spaces, and one is killed again: the next start looks behind the end of the
      table, although a space is free. */
  method SpacesOverrun(area: Area, number: nat) returns (server: TaskServer, s: int, o: Outcome)
    requires ProperArea(area)
    ensures server.Valid() && 0 <= s < SPACES && server.w.ss[s].first == NIL
    ensures o.Overruns?
  {
    var id;
    server, id := FillSpaces(area, number);
    s := EmptySpace(server, id);
    UnderCursor(FreeThread(server.w.ts), THREADS, SPACES);
    var t, x;
    o, id, t, x := server.StartTask(true);
  }

  lemma WaitCleared(w: World, t: nat, l: nat, caller: Word)
    requires t < |w.ts| && l < |w.ls| && |w.g.waiters| == |w.g.heads| == |w.ts| && |w.g.on| == |w.ls|
    ensures CallerWaits(w.(ls := w.ls[l := EMPTY_LISTENER]), t, l, caller) == CallerWaits(w, t, l, caller)
  {
    var r := Listener(caller, w.ts[t].waiter);
    assert w.ls[l := EMPTY_LISTENER][l := r] == w.ls[l := r];
  }

  /** Clearing the record of a thread that is not live does not change which places are taken. */
  lemma SamePlaces(a: Area, ts: seq<Tcb>, n: nat, s: int, localid: Word)
    requires n < |ts| && ts[n].space == NIL && s != NIL
    ensures LowestPlace(a, ts[n := EMPTY_TCB], s, localid) <==> LowestPlace(a, ts, s, localid)
  {
    var ts' := ts[n := EMPTY_TCB];
    assert forall t {:trigger ts[t]} {:trigger ts'[t]} :: 0 <= t < |ts| && ts'[t] != ts[t] ==> ts[t].space == ts'[t].space == NIL;
  }
}
