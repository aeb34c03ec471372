/**
 The scheduler: entity states and the run queue, the wake cascade through the wait lists, and CPU accounting
 under the completely fair algorithm.
 */
module Scheduling {
  import opened Entities
  import opened LinkedLists
  import opened Options
  import opened Sets
  import opened WakeCascade
  import opened CfsAccounting

  /** States in which an entity competes for the processor. */
  predicate Ready(s: EntityState) { s == RUNNABLE || s == RUNNING }

  /** Every entity but the idle one is in the run queue exactly once if it is runnable or running, else not at all. */
  ghost predicate Queued(q: seq<Entity>, st: States, idle: Entity) {
    && (forall i, j :: 0 <= i < j < |q| ==> q[i] != q[j])
    && (forall e :: e in q ==> e in st && e != idle && Ready(st[e]))
    && (forall e :: e in st && e != idle && Ready(st[e]) ==> e in q)
  }

  /** The run queue after entity e went from state from to state to. */
  function QueueAfter(q: seq<Entity>, e: Entity, from: EntityState, to: EntityState): seq<Entity> {
    if Ready(to) && !Ready(from) then q + [e]
    else if !Ready(to) && Ready(from) then RemoveFirst(q, e)
    else q
  }

  /** Those who stay in the queue when e goes from state from to state to. */
  function StillQueued(q: seq<Entity>, e: Entity, from: EntityState, to: EntityState): seq<Entity> {
    if (from == RUNNABLE || from == RUNNING) && (to == STOPPED || to == SLEEPING) then RemoveFirst(q, e) else q
  }

  /** The queue q' begins with q: whoever has come joined at the end. */
  ghost predicate InFront(q: seq<Entity>, q': seq<Entity>) {
    |q| <= |q'| && q'[..|q|] == q
  }

  lemma JoinsAtEnd(q: seq<Entity>, e: Entity, from: EntityState, to: EntityState)
    ensures InFront(StillQueued(q, e, from, to), QueueAfter(q, e, from, to))
    ensures to == RUNNABLE && (from == STOPPED || from == SLEEPING) ==> QueueAfter(q, e, from, to)[|q|..] == [e]
  {
  }

  lemma InFrontTwice(q: seq<Entity>, q': seq<Entity>, q'': seq<Entity>)
    requires InFront(q, q') && InFront(q', q'')
    ensures InFront(q, q'')
  {
    assert q''[..|q|] == q''[..|q'|][..|q|];
  }

  lemma {:induction false} RemoveFirstDistinct(q: seq<Entity>, x: Entity)
    requires forall i, j :: 0 <= i < j < |q| ==> q[i] != q[j]
    ensures var r := RemoveFirst(q, x);
            (forall i, j :: 0 <= i < j < |r| ==> r[i] != r[j]) && forall y :: y in r <==> y in q && y != x
  {
    if q != [] {
      var t := q[1..];
      assert q == [q[0]] + t && q[0] !in t;
      if q[0] != x {
        RemoveFirstDistinct(t, x);
      }
    }
  }

  lemma QueuedAfter(q: seq<Entity>, st: States, idle: Entity, e: Entity, s: EntityState)
    requires Queued(q, st, idle) && e in st && e != idle
    ensures Queued(QueueAfter(q, e, st[e], s), st[e := s], idle)
  {
    hide RemoveFirst;
    RemoveFirstDistinct(q, e);
  }

  /** With the membership exact, an entity's number of places in the queue is one or none. */
  lemma {:induction false} PlacesInQueue(q: seq<Entity>, e: Entity)
    requires forall i, j :: 0 <= i < j < |q| ==> q[i] != q[j]
    ensures multiset(q)[e] == if e in q then 1 else 0
  {
    if q != [] {
      PlacesInQueue(q[1..], e);
      assert q == [q[0]] + q[1..];
    }
  }

  ghost predicate NotWaiting(wt: Waiters, w: Entity) {
    forall x :: x in wt ==> w !in wt[x]
  }

  /** The lists after t has joined x's. */
  function WithWaiter(wt: Waiters, x: Entity, t: Entity): Waiters
    requires x in wt
  {
    wt[x := wt[x] + [t]]
  }

  /** The entities that are not runnable. */
  ghost function NotRunnable(st: States): set<Entity> {
    set x | x in st && st[x] != RUNNABLE
  }

  lemma FewerNotRunnable(st: States, e: Entity)
    requires e in st && st[e] != RUNNABLE
    ensures NotRunnable(st[e := RUNNABLE]) == NotRunnable(st) - {e}
      && |NotRunnable(st[e := RUNNABLE])| < |NotRunnable(st)|
  {
  }

  lemma WaiterFacts(st: States, wt: Waiters, e: Entity, k: nat, idle: Entity)
    requires Closed(st, wt) && e in wt && k < |wt[e]| && NotWaiting(wt, idle)
    ensures wt[e][k] in st && wt[e][k] != idle
  {
    assert wt[e][k] in wt[e];
  }

  lemma Cleared(st: States, wt: Waiters, e: Entity, idle: Entity)
    requires Closed(st, wt) && e in wt && NotWaiting(wt, idle)
    ensures Closed(st, wt[e := []]) && NotWaiting(wt[e := []], idle)
  {
  }

  lemma ClosedState(st: States, wt: Waiters, e: Entity, s: EntityState)
    requires Closed(st, wt) && e in st
    ensures Closed(st[e := s], wt) && st[e := s].Keys == st.Keys
  {
  }

  /** Waking leaves no more entities that are not runnable. */
  lemma StillFewer(st: States, wt: Waiters, w: Entity)
    requires w in st && wt.Keys == st.Keys
    ensures |NotRunnable(StatesAfter(st, wt, w, RUNNABLE))| <= |NotRunnable(st)|
  {
    hide Reached;
    WakingOnly(st, wt, w);
    SubsetSize(NotRunnable(StatesAfter(st, wt, w, RUNNABLE)), NotRunnable(st));
  }

  /** Entities other than e have kept their state or have become runnable. */
  ghost predicate OnlyWoken(st: States, st': States, e: Entity) {
    st'.Keys == st.Keys && forall x :: x in st && x != e ==> st'[x] == st[x] || st'[x] == RUNNABLE
  }

  lemma WokenOnly(st: States, wt: Waiters, e: Entity, s: EntityState, k: int, st1: States, wt1: Waiters)
    requires Woken(st, wt, e, s, k, st1, wt1)
    ensures OnlyWoken(st, st1, e)
  {
  }

  lemma OnlyWokenTwice(st: States, st1: States, wt1: Waiters, e: Entity, w: Entity)
    requires OnlyWoken(st, st1, e) && w in st1 && wt1.Keys == st1.Keys
    ensures OnlyWoken(st, StatesAfter(st1, wt1, w, RUNNABLE), e)
  {
    hide Reached;
    WakingOnly(st1, wt1, w);
  }

  /** Waking the k-th waiter of e: either the walk can go on, or e has changed and its list is gone. */
  lemma OneWoken(st: States, wt: Waiters, e: Entity, s: EntityState, k: nat, st1: States, wt1: Waiters)
    requires Closed(st, wt) && e in wt && Woken(st, wt, e, s, k, st1, wt1) && k < |wt[e]|
    ensures e in wt1 && wt[e][k] in st1
    ensures var w := wt[e][k];
            var st2, wt2 := StatesAfter(st1, wt1, w, RUNNABLE), WaitersAfter(st1, wt1, w, RUNNABLE);
            && st2.Keys == st.Keys == wt2.Keys && |NotRunnable(st2)| <= |NotRunnable(st1)| && OnlyWoken(st, st2, e)
            && (if wt2[e] == wt[e] then Woken(st, wt, e, s, k + 1, st2, wt2)
                else ComesBack(st, wt, e) && st2[e] == RUNNABLE && s != RUNNABLE && wt2[e] == [])
  {
    hide Woken, NotRunnable, Closed, StatesAfter, WaitersAfter, ComesBack;
    WokenKeys(st, wt, e, s, k, st1, wt1);
    NextWoken(st, wt, e, s, k, st1, wt1);
    var w := wt[e][k];
    WakingOnly(st1, wt1, w);
    StillFewer(st1, wt1, w);
    WokenOnly(st, wt, e, s, k, st1, wt1);
    OnlyWokenTwice(st, st1, wt1, e, w);
    if Changed(st1, StatesAfter(st1, wt1, w, RUNNABLE), e) {
      CameBack(st, wt, e, s, k, st1, wt1);
    }
  }

  /** The accounts are kept for the entities in es, and what runs was started at the current time. */
  ghost predicate KeptFor(a: Accounts, es: set<Entity>, idle: Entity) {
    && a.cpu.Keys == es && a.start.Keys == es && idle in es
    && (a.current.Some? ==> a.current.value in es) && InStep(a)
  }

  lemma KeptForOneMore(a: Accounts, es: set<Entity>, idle: Entity, e: Entity)
    requires KeptFor(a, es, idle) && e !in es
    ensures KeptFor(a.(cpu := a.cpu[e := 0], start := a.start[e := 0]), es + {e}, idle)
  {
  }

  lemma KeptForNext(a: Accounts, es: set<Entity>, idle: Entity, next: Entity)
    requires KeptFor(a, es, idle) && next in es
    ensures KeptFor(a.(current := Some(next), start := a.start[next := a.runtime]), es, idle)
  {
  }

  lemma KeptForTick(a: Accounts, es: set<Entity>, idle: Entity)
    requires KeptFor(a, es, idle)
    ensures a.current.Some? ==>
      a.current.value in a.cpu && a.current.value in a.start
      && a.start[a.current.value] <= a.runtime
    ensures KeptFor(Accounted(a.(runtime := a.runtime + TICK)), es, idle)
    ensures Charged(a, Accounted(a.(runtime := a.runtime + TICK)))
  {
  }

  lemma ClosedAdd(st: States, wt: Waiters, e: Entity, idle: Entity)
    requires Closed(st, wt) && e !in st && NotWaiting(wt, idle)
    ensures Closed(st[e := STOPPED], wt[e := []]) && NotWaiting(wt[e := []], idle)
  {
  }

  lemma QueuedAdd(q: seq<Entity>, st: States, idle: Entity, e: Entity)
    requires Queued(q, st, idle) && e !in st
    ensures Queued(q, st[e := STOPPED], idle)
  {
  }

  class Scheduler {
    const idle: Entity
    var state: States
    /** Each entity's state-changed event: the list of those who wait for it. */
    var waiters: Waiters
    var runqueue: seq<Entity>
    var cpuRuntime: map<Entity, nat>
    var execStart: map<Entity, nat>
    var current: Option<Entity>
    /** The kernel's runtime. */
    var runtime: nat
    var active: bool
    ghost var entities: set<Entity>
    /** The runtime at the first scheduling decision. */
    ghost var started: Option<nat>

    ghost function Acc(): Accounts
      reads this`cpuRuntime, this`execStart, this`current, this`runtime
    {
      Accounts(cpuRuntime, execStart, current, runtime)
    }

    /** The accounts are kept for the entities in es. */
    ghost predicate Books(es: set<Entity>)
      reads this`cpuRuntime, this`execStart, this`current, this`runtime
    {
      KeptFor(Acc(), es, idle)
    }

    ghost predicate Valid()
      reads this
    {
      && Books(entities) && state.Keys == entities && Closed(state, waiters)
      && state[idle] == RUNNABLE && NotWaiting(waiters, idle) && Queued(runqueue, state, idle)
    }

    ghost predicate NoneRunning()
      reads this
    {
      forall e :: e in state ==> state[e] != RUNNING
    }

    /** What is on the processor is runnable: a queued entity, or the idle one if nothing is queued. */
    ghost predicate RunsRunnable()
      reads this
    {
      && current.Some? && current.value in state && state[current.value] == RUNNABLE
      && (current.value in runqueue || (runqueue == [] && current.value == idle))
    }

    /** A scheduler with its idle entity, which is runnable but not queued; nothing has run yet. */
    constructor (idle: Entity)
      ensures Valid() && NoneRunning() && this.idle == idle && state.Keys == {idle} && current == None && !active
      ensures runtime == 0 && cpuRuntime == map[idle := 0] && started == None
    {
      this.idle := idle;
      state, waiters, runqueue := map[idle := RUNNABLE], map[idle := []], [];
      cpuRuntime, execStart, current, runtime, active := map[idle := 0], map[idle := 0], None, 0, false;
      entities, started := {idle}, None;
    }

    /** A new entity: stopped, without CPU time, with nobody waiting for it. */
    method AddEntity(e: Entity)
      requires Valid() && e !in state
      modifies this
      ensures Valid() && state == old(state)[e := STOPPED] && runqueue == old(runqueue)
      ensures waiters == old(waiters)[e := []] && cpuRuntime == old(cpuRuntime)[e := 0] && runtime == old(runtime)
      ensures current == old(current) && active == old(active) && started == old(started)
      ensures execStart == old(execStart)[e := 0]
    {
      hide KeptFor, Queued, Closed, NotWaiting;
      BooksKeys();
      KeptForOneMore(Acc(), entities, idle, e);
      ClosedAdd(state, waiters, e, idle);
      QueuedAdd(runqueue, state, idle, e);
      state, waiters, entities := state[e := STOPPED], waiters[e := []], entities + {e};
      cpuRuntime, execStart := cpuRuntime[e := 0], execStart[e := 0];
    }

    lemma BooksKeys()
      requires Books(entities)
      ensures cpuRuntime.Keys == execStart.Keys == entities && idle in entities
    {
    }

    /** What the new state means for the run queue. */
    method UpdateRunqueue(e: Entity, s: EntityState)
      requires Valid() && e in state && e != idle && state[e] != s && (s == RUNNING ==> state[e] == RUNNABLE)
      modifies this`runqueue, this`state
      ensures Valid() && state == old(state)[e := s] && runqueue == QueueAfter(old(runqueue), e, old(state[e]), s)
    {
      hide RemoveFirst, Queued, InStep, Books, NotWaiting, Closed;
      ClosedState(state, waiters, e, s);
      QueuedAfter(runqueue, state, idle, e, s);
      if s == RUNNABLE {
        if state[e] == STOPPED || state[e] == SLEEPING {
          runqueue := runqueue + [e];
        }
      } else if s == STOPPED || s == SLEEPING {
        if state[e] == RUNNABLE || state[e] == RUNNING {
          runqueue := RemoveFirst(runqueue, e);
        }
      } else if s == RUNNING {
        assert state[e] == RUNNABLE;
      }
      state := state[e := s];
    }

    /**
     Changes an entity's state and wakes everybody who waits for that, with everything that follows. Membership in the
     run queue stays exact, and the outcome is what the wait lists reach. Unless the entity becomes runnable, the change
     may come back to it: exactly then the list being walked is cleared under the walk, and the result is false.
     */
    method SetEntityState(e: Entity, s: EntityState) returns (ok: bool)
      requires Valid() && e in state && e != idle
      requires s == RUNNING ==> state[e] == RUNNABLE || state[e] == RUNNING
      modifies this`runqueue, this`state, this`waiters
      ensures Valid() && OnlyWoken(old(state), state, e)
      ensures InFront(StillQueued(old(runqueue), e, old(state[e]), s), runqueue)
      ensures ok <==> old(state[e] == s || s == RUNNABLE || !ComesBack(state, waiters, e))
      ensures ok ==> state == StatesAfter(old(state), old(waiters), e, s)
                     && waiters == WaitersAfter(old(state), old(waiters), e, s)
      ensures !ok ==> state[e] == RUNNABLE && waiters[e] == [] != old(waiters)[e]
      decreases if s == RUNNABLE then 0 else 1, |NotRunnable(state)|, 1
    {
      hide InFront, StillQueued, RemoveFirst, InStep, Queued, WaitsFor, Woken, NotRunnable, Books, NotWaiting,
        StatesAfter, WaitersAfter, ComesBack;
      JoinsAtEnd(runqueue, e, state[e], s);
      if state[e] == s {
        Unchanged(state, waiters, e);
        return true;
      }
      ghost var st, wt := state, waiters;
      ghost var q: seq<Entity> := StillQueued(runqueue, e, state[e], s);
      UpdateRunqueue(e, s);
      ghost var q' := runqueue;
      if s == RUNNABLE {
        FewerNotRunnable(st, e);
      }
      NoneWokenYet(st, wt, e, s);
      ok := Trigger(e, st, wt, s);
      InFrontTwice(q, q', runqueue);
    }

    /** Wakes the waiters of e, whose state has just been set to s, one after the other, and clears the list. */
    method Trigger(e: Entity, ghost st: States, ghost wt: Waiters, ghost s: EntityState) returns (ok: bool)
      requires Valid() && e in state && e != idle && Closed(st, wt) && waiters == wt
      requires Woken(st, wt, e, s, 0, state, waiters)
      requires s == RUNNABLE ==> |NotRunnable(state)| < |NotRunnable(st)|
      modifies this`runqueue, this`state, this`waiters
      ensures Valid() && OnlyWoken(st, state, e) && InFront(old(runqueue), runqueue)
      ensures ok <==> s == RUNNABLE || !ComesBack(st, wt, e)
      ensures ok ==> state == StatesAfter(st, wt, e, s) && waiters == WaitersAfter(st, wt, e, s)
      ensures !ok ==> state[e] == RUNNABLE && waiters[e] == [] != wt[e]
      decreases if s == RUNNABLE then 0 else 1, |NotRunnable(st)|, 0
    {
      hide RemoveFirst, InStep, Queued, WaitsFor, Woken, NotRunnable, QueueAfter, Changed, Closed, Books, NotWaiting,
        StatesAfter, WaitersAfter, ComesBack, OnlyWoken;
      WokenKeys(st, wt, e, s, 0, state, waiters);
      var list := waiters[e];
      for k := 0 to |list|
        invariant Valid() && state.Keys == st.Keys == waiters.Keys && waiters[e] == list
        invariant InFront(old(runqueue), runqueue)
        invariant Woken(st, wt, e, s, k, state, waiters)
        invariant s == RUNNABLE ==> |NotRunnable(state)| < |NotRunnable(st)|
      {
        WaiterFacts(st, wt, e, k, idle);
        OneWoken(st, wt, e, s, k, state, waiters);
        ghost var q := runqueue;
        var _ := SetEntityState(list[k], RUNNABLE);
        InFrontTwice(old(runqueue), q, runqueue);
        if waiters[e] != list {
          return false;
        }
      }
      WokenOnly(st, wt, e, s, |list|, state, waiters);
      AllWoken(st, wt, e, s, state, waiters);
      Cleared(state, waiters, e, idle);
      waiters := waiters[e := []];
      ok := true;
    }

    /**
     A thread waits for x to change: it joins x's list and goes to sleep; the running thread gives up the
     processor. False stands for a list cleared while it was being walked, as in SetEntityState.
     */
    method SleepOn(x: Entity, t: Entity) returns (ok: bool)
      requires Valid() && NoneRunning() && x in state && t in state && t != idle
      modifies this
      ensures Valid() && NoneRunning() && entities == old(entities) && runtime == old(runtime)
      ensures state.Keys == old(state).Keys
      ensures ok <==> old(state[t] == SLEEPING || !ComesBack(state, WithWaiter(waiters, x, t), t))
      ensures ok ==> state == StatesAfter(old(state), WithWaiter(old(waiters), x, t), t, SLEEPING)
                     && waiters == WaitersAfter(old(state), WithWaiter(old(waiters), x, t), t, SLEEPING)
      ensures InFront(StillQueued(old(runqueue), t, old(state[t]), SLEEPING), runqueue)
      ensures ok ==> state[t] == SLEEPING && waiters[x] == old(waiters)[x] + [t]
      ensures ok && x != t ==> state[x] == old(state)[x]
      ensures cpuRuntime == old(cpuRuntime) && (current.Some? <==> old(current).Some?) && active == old(active)
      ensures old(current).Some? ==> started == old(started)
      ensures ok && active && old(current) == Some(t) ==>
                (forall i :: 0 <= i < |runqueue| ==> runqueue[i] in old(cpuRuntime))
                && Acc() == Scheduled(old(Acc()), runqueue, idle)
                && Decided(old(Acc()), Acc(), runqueue, idle) && RunsRunnable()
      ensures !ok || !active || old(current) != Some(t) ==> Acc() == old(Acc())
    {
      hide RemoveFirst, InStep, Queued, WaitsFor, Woken, NotRunnable, QueueAfter, Closed, Books, NotWaiting,
        StatesAfter, WaitersAfter, ComesBack;
      Joined(state, waiters, x, t, idle);
      waiters := WithWaiter(waiters, x, t);
      ghost var wt := waiters;
      ok := SetEntityState(t, SLEEPING);
      if ok {
        SleepOutcome(old(state), wt, t, x);
        if current == Some(t) {
          Schedule();
        }
      }
    }

    /** The queued entity of least CPU time, the first of them; none if nothing is queued. */
    method PickNextEntity() returns (next: Option<Entity>)
      requires Valid()
      ensures forall i :: 0 <= i < |runqueue| ==> runqueue[i] in cpuRuntime
      ensures next == if runqueue == [] then None else Some(FirstMin(runqueue, cpuRuntime))
    {
      hide Closed, NotWaiting, InStep, FirstMin, Queued;
      QueueInBooks();
      if |runqueue| == 0 {
        return None;
      }
      FirstMinSnoc(runqueue, 0, cpuRuntime);
      assert runqueue[..|runqueue|] == runqueue;
      if |runqueue| == 1 {
        return Some(runqueue[0]);
      }
      var minRuntime: nat := 0;
      next := None;
      for i := 0 to |runqueue|
        invariant i == 0 ==> next == None
        invariant i > 0 ==> next == Some(FirstMin(runqueue[..i], cpuRuntime)) && minRuntime == cpuRuntime[next.value]
      {
        FirstMinSnoc(runqueue, i, cpuRuntime);
        if next.None? || cpuRuntime[runqueue[i]] < minRuntime {
          next := Some(runqueue[i]);
          minRuntime := cpuRuntime[runqueue[i]];
        }
      }
    }

    lemma QueueInBooks()
      requires Valid()
      ensures forall i :: 0 <= i < |runqueue| ==> runqueue[i] in cpuRuntime
    {
      hide Closed, NotWaiting, InStep;
      assert forall i :: 0 <= i < |runqueue| ==> runqueue[i] in runqueue;
    }

    /**
     Puts the algorithm's choice on the processor, or the idle entity; either is runnable, so its activation
     succeeds.
     */
    method Schedule()
      requires Valid() && NoneRunning()
      modifies this`current, this`execStart, this`started
      ensures Valid()
      ensures !active ==> Acc() == old(Acc())
      ensures started == if active && old(current).None? then Some(runtime) else old(started)
      ensures active ==> (forall i :: 0 <= i < |runqueue| ==> runqueue[i] in old(cpuRuntime))
                         && Acc() == Scheduled(old(Acc()), runqueue, idle)
      ensures active ==> Decided(old(Acc()), Acc(), runqueue, idle) && RunsRunnable()
    {
      hide FirstMin, Closed, NotWaiting, Queued, KeptFor, Decided;
      BooksKeys();
      if !active {
        return;
      }
      var picked := PickNextEntity();
      var next := if picked.None? then idle else picked.value;
      NextRuns(next);
      ScheduledDecides(Acc(), runqueue, idle);
      KeptForNext(Acc(), entities, idle, next);
      if current.None? {
        started := Some(runtime);
      }
      if Some(next) != current {
        assert state[next] == RUNNABLE;
        current := Some(next);
      }
      execStart := execStart[next := runtime];
    }

    /** A queued entity, or the idle one, is known and runnable. */
    lemma NextRuns(next: Entity)
      requires Valid() && NoneRunning() && (next in runqueue || next == idle)
      ensures next in state && state[next] == RUNNABLE
    {
    }

    /** Charges the running entity for the time since its start time. */
    method UpdateAccounting()
      requires current.Some? ==>
        current.value in cpuRuntime && current.value in execStart
        && execStart[current.value] <= runtime
      modifies this`cpuRuntime, this`execStart
      ensures Acc() == Accounted(old(Acc()))
    {
      if current.Some? {
        var c := current.value;
        var delta := runtime - execStart[c];
        cpuRuntime := cpuRuntime[c := cpuRuntime[c] + delta];
        execStart := execStart[c := runtime];
      }
    }

    /** The timer interrupt: the clock advances, the running entity is charged, and the scheduler runs. */
    method Tick()
      requires Valid() && NoneRunning()
      modifies this`current, this`execStart, this`cpuRuntime, this`runtime, this`started
      ensures Valid()
      ensures started == if active && old(current).None? then Some(runtime) else old(started)
      ensures old(current.Some? ==>
        current.value in cpuRuntime && current.value in execStart
        && execStart[current.value] <= runtime)
      ensures active ==> (forall i :: 0 <= i < |runqueue| ==> runqueue[i] in old(cpuRuntime))
                         && Acc() == Ticked(old(Acc()), runqueue, idle)
      ensures active ==> TickDone(old(Acc()), Acc(), runqueue, idle) && RunsRunnable()
      ensures !active ==> Acc() == Accounted(old(Acc()).(runtime := old(runtime) + TICK))
    {
      hide Closed, NotWaiting, Queued, FirstMin, KeptFor, Scheduled, Charged, Decided, RunsRunnable;
      KeptForTick(Acc(), entities, idle);
      runtime := runtime + TICK;
      UpdateAccounting();
      ghost var m := Acc();
      Schedule();
      assert active ==> Charged(old(Acc()), m) && Decided(m, Acc(), runqueue, idle);
    }
  }

  lemma Joined(st: States, wt: Waiters, x: Entity, t: Entity, idle: Entity)
    requires Closed(st, wt) && NotWaiting(wt, idle) && x in st && t in st && t != idle
    ensures x in wt
    ensures var wt' := WithWaiter(wt, x, t); Closed(st, wt') && NotWaiting(wt', idle) && WaitsFor(wt', t, x)
  {
  }

  /** Falling asleep without coming back leaves the awaited entity and its list as they were. */
  lemma SleepOutcome(st: States, wt: Waiters, t: Entity, x: Entity)
    requires t in st && wt.Keys == st.Keys && WaitsFor(wt, t, x) && (st[t] == SLEEPING || !ComesBack(st, wt, t))
    ensures var st', wt' := StatesAfter(st, wt, t, SLEEPING), WaitersAfter(st, wt, t, SLEEPING);
            st'.Keys == st.Keys == wt'.Keys && st'[t] == SLEEPING && wt'[x] == wt[x] && (x != t ==> st'[x] == st[x])
  {
    hide Reached;
    if st[t] != SLEEPING {
      assert !Reached(st, wt, t, x);
    }
  }

  lemma Unchanged(st: States, wt: Waiters, e: Entity)
    requires e in st
    ensures StatesAfter(st, wt, e, st[e]) == st && WaitersAfter(st, wt, e, st[e]) == wt && OnlyWoken(st, st, e)
  {
  }

  /** What has only been woken does not run, nor does e in any other state. */
  lemma NoneRunningKept(st: States, st': States, e: Entity)
    requires OnlyWoken(st, st', e) && (forall x :: x in st ==> st[x] != RUNNING) && (e in st' ==> st'[e] != RUNNING)
    ensures forall x :: x in st' ==> st'[x] != RUNNING
  {
  }

  // ---------- whole runs ----------

  /** What happens to a running system; waiting is done by the thread that runs. */
  datatype Command =
    NewEntity(e: Entity) | Start(e: Entity) | Stop(e: Entity) | WaitFor(e: Entity) | YieldNow | TimerTick

  /** es lists all entities, and together they have been charged the time since the first scheduling decision. */
  ghost predicate Balanced(s: Scheduler, es: seq<Entity>)
    reads s
  {
    && Lists(es, s.Acc()) && (s.started.Some? <==> s.current.Some?)
    && Total(es, s.cpuRuntime) == if s.started.Some? then s.runtime - s.started.value else 0
  }

  /** What every run keeps: exact membership and the balance of CPU time. */
  ghost predicate Sound(s: Scheduler, es: seq<Entity>)
    reads s
  {
    s.Valid() && s.NoneRunning() && s.active && Balanced(s, es)
  }

  /** The accounts and the run queue, as the laws about whole runs see them. */
  ghost function View(s: Scheduler): Sched
    reads s
  {
    Sched(s.Acc(), s.runqueue)
  }

  /** What there is to see of a scheduler at one moment. */
  datatype Shot = Shot(st: States, wt: Waiters, sched: Sched)

  ghost function ShotOf(s: Scheduler): Shot
    reads s
  {
    Shot(s.state, s.waiters, View(s))
  }

  /** The thread that a wait for x puts to sleep, if there is one. */
  function Sleeper(a: Shot, x: Entity, idle: Entity): Option<Entity> {
    match a.sched.a.current
    case None => None
    case Some(t) => if t != idle && t in a.st && x in a.st && x in a.wt then Some(t) else None
  }

  /** The command clears no list under a walk along it. */
  ghost predicate Safe(a: Shot, cmd: Command, idle: Entity) {
    match cmd
    case Stop(e) => e in a.st && e != idle && a.st[e] != STOPPED ==> !ComesBack(a.st, a.wt, e)
    case WaitFor(x) =>
      var t := Sleeper(a, x, idle);
      t.Some? && a.st[t.value] != SLEEPING ==> !ComesBack(a.st, WithWaiter(a.wt, x, t.value), t.value)
    case _ => true
  }

  /** Entity e was set to s, when the wait lists were wt. */
  ghost predicate SetTo(a: Shot, wt: Waiters, e: Entity, s: EntityState, b: Shot) {
    && e in a.st && b.st == StatesAfter(a.st, wt, e, s) && b.wt == WaitersAfter(a.st, wt, e, s)
    && InFront(StillQueued(a.sched.q, e, a.st[e], s), b.sched.q)
  }

  /** What runs is runnable. */
  ghost predicate RunnableRuns(b: Shot) {
    match b.sched.a.current
    case None => false
    case Some(c) => c in b.st && b.st[c] == RUNNABLE
  }

  /** A scheduling decision was made on the new queue. */
  ghost predicate DecidedOn(a: Shot, b: Shot, idle: Entity) {
    && (forall i :: 0 <= i < |b.sched.q| ==> b.sched.q[i] in a.sched.a.cpu)
    && b.sched.a == Scheduled(a.sched.a, b.sched.q, idle)
    && Decided(a.sched.a, b.sched.a, b.sched.q, idle) && RunnableRuns(b)
  }

  /** The command led from a to b. */
  ghost predicate Happened(a: Shot, cmd: Command, b: Shot, idle: Entity) {
    match cmd
    case NewEntity(e) =>
      if e in a.st then b == a
      else
        && b.st == a.st[e := STOPPED] && b.wt == a.wt[e := []] && b.sched.q == a.sched.q
        && b.sched.a == a.sched.a.(cpu := a.sched.a.cpu[e := 0], start := a.sched.a.start[e := 0])
    case Start(e) =>
      if e in a.st && e != idle then SetTo(a, a.wt, e, RUNNABLE, b) && b.sched.a == a.sched.a
      else b == a
    case Stop(e) =>
      if e in a.st && e != idle then
        && SetTo(a, a.wt, e, STOPPED, b)
        && (if a.sched.a.current == Some(e) then DecidedOn(a, b, idle) else b.sched.a == a.sched.a)
      else b == a
    case WaitFor(x) =>
      var t := Sleeper(a, x, idle);
      if t.Some? then SetTo(a, WithWaiter(a.wt, x, t.value), t.value, SLEEPING, b) && DecidedOn(a, b, idle)
      else b == a
    case YieldNow => b.st == a.st && b.wt == a.wt && b.sched.q == a.sched.q && DecidedOn(a, b, idle)
    case TimerTick =>
      && b.st == a.st && b.wt == a.wt && Ok(a.sched, idle) && b.sched == Step(a.sched, idle, Event.Tick)
      && TickDone(a.sched.a, b.sched.a, b.sched.q, idle) && RunnableRuns(b)
  }

  /** An entity without CPU time has been added. */
  ghost predicate Grown(a: Accounts, b: Accounts) {
    exists e: Entity :: e !in a.cpu && b == a.(cpu := a.cpu[e := 0], start := a.start[e := 0])
  }

  /**
   What a command does to accounts and queue: a new entity, a change of the queue, a decision after that, or a tick.
   */
  ghost predicate Effect(s: Sched, t: Sched, idle: Entity) {
    || (t.q == s.q && Grown(s.a, t.a))
    || t.a == s.a
    || (Ok(s.(q := t.q), idle) && t == Step(s.(q := t.q), idle, Yield))
    || (Ok(s, idle) && t == Step(s, idle, Event.Tick))
  }

  lemma StartBalanced(s: Scheduler)
    requires s.Valid() && s.current == None && s.started == None && s.cpuRuntime == map[s.idle := 0]
    ensures Balanced(s, [s.idle])
  {
  }

  lemma SchedOk(s: Scheduler)
    requires s.Valid()
    ensures Ok(View(s), s.idle)
  {
    assert forall i :: 0 <= i < |s.runqueue| ==> s.runqueue[i] in s.runqueue;
  }

  /** A new entity has no CPU time. */
  lemma TotalExtend(es: seq<Entity>, cpu: map<Entity, nat>, e: Entity)
    requires Distinct(es) && (forall x :: x in es <==> x in cpu) && e !in cpu
    ensures Distinct(es + [e]) && (forall x :: x in es + [e] <==> x in cpu[e := 0])
    ensures forall i :: 0 <= i < |es + [e]| ==> (es + [e])[i] in cpu[e := 0]
    ensures forall i :: 0 <= i < |es| ==> es[i] in cpu
    ensures Total(es + [e], cpu[e := 0]) == Total(es, cpu)
  {
    assert forall i :: 0 <= i < |es| ==> es[i] in es;
    var fs := es + [e];
    assert forall i :: 0 <= i < |fs| ==> fs[i] in fs;
    TotalSnoc(es, cpu, e);
  }

  lemma {:induction false} TotalSnoc(es: seq<Entity>, cpu: map<Entity, nat>, e: Entity)
    requires (forall i :: 0 <= i < |es| ==> es[i] in cpu) && e !in cpu
    ensures forall i :: 0 <= i < |es + [e]| ==> (es + [e])[i] in cpu[e := 0]
    ensures Total(es + [e], cpu[e := 0]) == Total(es, cpu)
  {
    if es == [] {
      assert [e][1..] == [];
    } else {
      TotalSnoc(es[1..], cpu, e);
      assert (es + [e])[1..] == es[1..] + [e];
    }
  }

  method ExecuteNew(s: Scheduler, e: Entity, ghost es: seq<Entity>) returns (ghost es': seq<Entity>)
    requires Sound(s, es)
    modifies s
    ensures Sound(s, es') && Effect(old(View(s)), View(s), s.idle) && s.runtime == old(s.runtime)
    ensures Happened(old(ShotOf(s)), NewEntity(e), ShotOf(s), s.idle)
  {
    hide Queued, Closed, NotWaiting, Total, Distinct, InStep;
    es' := es;
    if e !in s.state {
      assert s.Books(s.entities);
      es' := es + [e];
      TotalExtend(es, s.cpuRuntime, e);
      ghost var a := s.Acc();
      s.AddEntity(e);
      assert Grown(a, s.Acc());
    }
  }

  method ExecuteState(s: Scheduler, e: Entity, to: EntityState, ghost es: seq<Entity>) returns (ok: bool)
    requires Sound(s, es) && (to == RUNNABLE || to == STOPPED)
    modifies s
    ensures Sound(s, es) && Effect(old(View(s)), View(s), s.idle) && s.runtime == old(s.runtime)
    ensures ok <==> old(Safe(ShotOf(s), if to == RUNNABLE then Start(e) else Stop(e), s.idle))
    ensures ok ==> Happened(old(ShotOf(s)), if to == RUNNABLE then Start(e) else Stop(e), ShotOf(s), s.idle)
  {
    hide Queued, Closed, Scheduled, NotWaiting, Total, Distinct, InStep, Lists, StatesAfter, WaitersAfter, ComesBack,
      Decided, InFront, StillQueued, OnlyWoken;
    ok := true;
    if e in s.state && e != s.idle {
      ghost var st, wt := s.state, s.waiters;
      ok := s.SetEntityState(e, to);
      StateSet(st, wt, e, to);
      NoneRunningKept(st, s.state, e);
      assert Sound(s, es);
      if ok && to == STOPPED && s.current == Some(e) {
        ExecuteTurn(s, false, es);
      }
    }
  }

  lemma StateSet(st: States, wt: Waiters, e: Entity, s: EntityState)
    requires e in st
    ensures e in StatesAfter(st, wt, e, s) && StatesAfter(st, wt, e, s)[e] == s
  {
  }

  method ExecuteWait(s: Scheduler, x: Entity, ghost es: seq<Entity>) returns (ok: bool)
    requires Sound(s, es)
    modifies s
    ensures Sound(s, es) && Effect(old(View(s)), View(s), s.idle) && s.runtime == old(s.runtime)
    ensures ok <==> old(Safe(ShotOf(s), WaitFor(x), s.idle))
    ensures ok ==> Happened(old(ShotOf(s)), WaitFor(x), ShotOf(s), s.idle)
  {
    hide Queued, Closed, NotWaiting, Total, Distinct, InStep, Scheduled, StatesAfter, WaitersAfter, ComesBack,
      Decided, InFront, StillQueued;
    ok := true;
    CurrentKnown(s);
    if s.current.Some? && x in s.state && s.current.value != s.idle {
      ghost var v := View(s);
      SchedOk(s);
      ok := s.SleepOn(x, s.current.value);
      QueueInAccounts(s);
      assert Ok(v.(q := s.runqueue), s.idle);
    }
  }

  lemma CurrentKnown(s: Scheduler)
    requires s.Valid()
    ensures s.current.Some? ==> s.current.value in s.state
    ensures s.waiters.Keys == s.state.Keys
  {
  }

  lemma QueueInAccounts(s: Scheduler)
    requires s.Valid()
    ensures forall i :: 0 <= i < |s.runqueue| ==> s.runqueue[i] in s.cpuRuntime
  {
    SchedOk(s);
  }

  /** A scheduling decision, after a timer tick or without one. */
  method ExecuteTurn(s: Scheduler, tick: bool, ghost es: seq<Entity>)
    requires Sound(s, es)
    modifies s
    ensures Sound(s, es)
    ensures old(Ok(View(s), s.idle)) && View(s) == Step(old(View(s)), s.idle, if tick then Event.Tick else Yield)
    ensures Effect(old(View(s)), View(s), s.idle) && s.state == old(s.state) && s.waiters == old(s.waiters)
    ensures s.runtime == old(s.runtime) + if tick then TICK else 0
    ensures if tick then TickDone(old(s.Acc()), s.Acc(), s.runqueue, s.idle)
            else Decided(old(s.Acc()), s.Acc(), s.runqueue, s.idle)
    ensures s.RunsRunnable()
  {
    hide Decided, Charged, Queued, Closed, Ticked, Accounted, Scheduled, NotWaiting, Total, Distinct, InStep, Lists;
    SchedOk(s);
    if tick {
      StepConserves(View(s), s.idle, Event.Tick, es);
      s.Tick();
    } else {
      StepConserves(View(s), s.idle, Yield, es);
      s.Schedule();
    }
  }

  /**
   One command: the scheduler stays sound and does what the command says, unless a list is cleared under the walk along
   it; which happens exactly when the command is not safe.
   */
  method Execute(s: Scheduler, cmd: Command, ghost es: seq<Entity>) returns (ok: bool, ghost es': seq<Entity>)
    requires Sound(s, es)
    modifies s
    ensures Sound(s, es') && Effect(old(View(s)), View(s), s.idle)
    ensures ok <==> old(Safe(ShotOf(s), cmd, s.idle))
    ensures ok ==> Happened(old(ShotOf(s)), cmd, ShotOf(s), s.idle)
    ensures s.runtime == old(s.runtime) + (if cmd.TimerTick? then TICK else 0) && (!ok ==> cmd.Stop? || cmd.WaitFor?)
  {
    hide Scheduler.Valid, Balanced, Scheduled, Ticked, Effect, ComesBack, StatesAfter, WaitersAfter, Decided, TickDone;
    ok, es' := true, es;
    match cmd {
      case NewEntity(e) => es' := ExecuteNew(s, e, es);
      case Start(e) => ok := ExecuteState(s, e, RUNNABLE, es);
      case Stop(e) => ok := ExecuteState(s, e, STOPPED, es);
      case WaitFor(x) => ok := ExecuteWait(s, x, es);
      case YieldNow => ExecuteTurn(s, false, es);
      case TimerTick => ExecuteTurn(s, true, es);
    }
  }

  /** A wait that has happened: the thread that ran sleeps at the end of the list. */
  lemma WaitHappened(a: Shot, x: Entity, b: Shot, idle: Entity)
    requires a.wt.Keys == a.st.Keys && Safe(a, WaitFor(x), idle) && Happened(a, WaitFor(x), b, idle)
    ensures var t := Sleeper(a, x, idle);
            t.Some? ==> t.value in b.st && b.st[t.value] == SLEEPING && x in b.wt && b.wt[x] == a.wt[x] + [t.value]
  {
    hide StatesAfter, WaitersAfter, ComesBack;
    var t := Sleeper(a, x, idle);
    if t.Some? {
      assert WaitsFor(WithWaiter(a.wt, x, t.value), t.value, x);
      SleepOutcome(a.st, WithWaiter(a.wt, x, t.value), t.value, x);
    }
  }

  /** As long as the wait relation, with the wait that is asked for, has no cycle, every command is safe. */
  lemma SafeWithoutCycles(a: Shot, cmd: Command, idle: Entity, rank: Entity -> nat)
    requires Ranked(a.wt, rank)
    requires cmd.WaitFor? ==>
      var t := Sleeper(a, cmd.e, idle); t.Some? ==> Ranked(WithWaiter(a.wt, cmd.e, t.value), rank)
    ensures Safe(a, cmd, idle)
  {
    hide Ranked, ComesBack;
    match cmd
    case Stop(e) => AcyclicSafe(a.st, a.wt, rank, e);
    case WaitFor(x) =>
      var t := Sleeper(a, x, idle);
      if t.Some? {
        AcyclicSafe(a.st, WithWaiter(a.wt, x, t.value), rank, t.value);
      }
    case _ =>
  }

  /** When a sleeps waiting for b, then b falling asleep waiting for a clears the list under the walk. */
  method MutualJoin(s: Scheduler, a: Entity, b: Entity) returns (first: bool, second: bool)
    requires s.Valid() && s.NoneRunning() && a in s.state && b in s.state && a != s.idle && b != s.idle && a != b
    requires s.state[b] == RUNNABLE
    modifies s
    ensures first ==> !second
  {
    hide ComesBack, StatesAfter, WaitersAfter, Scheduler.Valid, Scheduled;
    second := false;
    BothKnown(s);
    first := s.SleepOn(b, a);
    if first {
      BothKnown(s);
      ghost var wt := WithWaiter(s.waiters, a, b);
      assert a in wt[b] && b in wt[a] by {
        assert s.waiters[b][|s.waiters[b]| - 1] == a && wt[a][|wt[a]| - 1] == b;
      }
      assert WaitsFor(wt, a, b) && WaitsFor(wt, b, a);
      MutualWait(s.state, wt, a, b);
      second := s.SleepOn(a, b);
    }
  }

  lemma BothKnown(s: Scheduler)
    requires s.Valid()
    ensures s.waiters.Keys == s.state.Keys
  {
  }

  /** How much time the timer interrupts of a run take. */
  function TimeOf(cmds: seq<Command>): nat {
    if cmds == [] then 0 else TimeOf(cmds[..|cmds| - 1]) + if cmds[|cmds| - 1].TimerTick? then TICK else 0
  }

  /** Step i of the run is a safe command, which has happened. */
  ghost predicate StepTaken(trace: seq<Shot>, cmds: seq<Command>, i: nat, idle: Entity)
    requires i + 1 < |trace| && i < |cmds|
  {
    Safe(trace[i], cmds[i], idle) && Happened(trace[i], cmds[i], trace[i + 1], idle)
  }

  /** The first |trace| - 1 commands led from one shot to the next, and in each the run queue holds who is ready. */
  ghost predicate IsRun(trace: seq<Shot>, cmds: seq<Command>, idle: Entity) {
    && 0 < |trace| <= |cmds| + 1
    && (forall i: nat {:trigger StepTaken(trace, cmds, i, idle)} :: i < |trace| - 1 ==> StepTaken(trace, cmds, i, idle))
    && (forall a :: a in trace ==> Queued(a.sched.q, a.st, idle))
  }

  lemma RunLonger(trace: seq<Shot>, cmds: seq<Command>, b: Shot, idle: Entity)
    requires IsRun(trace, cmds, idle) && |trace| <= |cmds| && Queued(b.sched.q, b.st, idle)
    requires Safe(trace[|trace| - 1], cmds[|trace| - 1], idle)
    requires Happened(trace[|trace| - 1], cmds[|trace| - 1], b, idle)
    ensures IsRun(trace + [b], cmds, idle)
  {
    hide Safe, Happened, Queued;
    var longer := trace + [b];
    forall i: nat | i < |longer| - 1
      ensures StepTaken(longer, cmds, i, idle)
    {
      assert i < |trace| - 1 ==> StepTaken(trace, cmds, i, idle);
    }
  }

  lemma QueueExact(s: Scheduler)
    requires s.Valid()
    ensures Queued(ShotOf(s).sched.q, ShotOf(s).st, s.idle)
  {
  }

  /**
   Every run from the start of the scheduler, up to a command that is not safe: each command does what it says, the run
   queue is exact all the time, the clock has advanced by the ticks, and CPU time is in balance.
   */
  method RunScript(s: Scheduler, cmds: seq<Command>)
    returns (k: nat, ok: bool, ghost trace: seq<Shot>, ghost es: seq<Entity>)
    requires s.Valid() && s.NoneRunning() && s.active && s.current == None && s.started == None
    requires s.cpuRuntime == map[s.idle := 0]
    modifies s
    ensures Sound(s, es) && k <= |cmds| && s.runtime == old(s.runtime) + TimeOf(cmds[..k])
    ensures IsRun(trace, cmds, s.idle) && |trace| == k + 1 && trace[0] == old(ShotOf(s))
    ensures if ok then k == |cmds| && trace[k] == ShotOf(s) else k < |cmds| && !Safe(trace[k], cmds[k], s.idle)
  {
    hide Scheduler.Valid, Balanced, Effect, Safe, Happened, Queued;
    StartBalanced(s);
    QueueExact(s);
    k, ok, trace, es := 0, true, [ShotOf(s)], [s.idle];
    while k < |cmds|
      invariant Sound(s, es) && k <= |cmds| && s.runtime == old(s.runtime) + TimeOf(cmds[..k])
      invariant IsRun(trace, cmds, s.idle) && |trace| == k + 1 && trace[0] == old(ShotOf(s)) && trace[k] == ShotOf(s)
    {
      assert cmds[..k + 1][..k] == cmds[..k];
      ok, es := Execute(s, cmds[k], es);
      if !ok {
        return;
      }
      QueueExact(s);
      RunLonger(trace, cmds, ShotOf(s), s.idle);
      k, trace := k + 1, trace + [ShotOf(s)];
    }
    ok := true;
  }

  // ---------- fairness of the scheduler's runs ----------

  /** Neither x nor y runs ahead of the other. */
  ghost predicate PairSettled(s: Sched, x: Entity, y: Entity) {
    x in s.a.cpu && y in s.a.cpu && Settled(s, x, y)
  }

  /** Two queued entities drift apart by one tick at most in a command, and stay settled if they stay queued. */
  lemma FairEffect(s: Sched, t: Sched, idle: Entity, x: Entity, y: Entity)
    requires Effect(s, t, idle) && BothQueued(s, idle, x, y) && PairSettled(s, x, y)
    ensures x in t.a.cpu && y in t.a.cpu && Gap(t, x, y) <= Max(Gap(s, x, y), TICK)
    ensures x in t.q && y in t.q ==> PairSettled(t, x, y)
  {
    hide Scheduled, Ticked, Accounted, Step;
    if t.q == s.q && Grown(s.a, t.a) {
      assert x in s.a.cpu && y in s.a.cpu;
    } else if t.a == s.a {
    } else if Ok(s, idle) && t == Step(s, idle, Event.Tick) {
      FairStep(s, idle, Event.Tick, x, y);
    } else {
      var r := s.(q := t.q);
      YieldKeepsTimes(r, idle);
      if x in t.q && y in t.q {
        FairStep(r, idle, Yield, x, y);
      }
    }
  }

  lemma YieldKeepsTimes(s: Sched, idle: Entity)
    requires Ok(s, idle)
    ensures Step(s, idle, Yield).a.cpu == s.a.cpu && Step(s, idle, Yield).q == s.q
  {
  }

  /**
   Executes commands until they are done, one of x and y has left the run queue, or a command is not safe. Whatever
   happens to others, the two have not drifted apart further than they were, or one tick.
   */
  method RunWhileQueued(s: Scheduler, cmds: seq<Command>, x: Entity, y: Entity, ghost es: seq<Entity>)
    returns (k: nat, ok: bool, ghost trace: seq<Shot>, ghost es': seq<Entity>)
    requires Sound(s, es) && x in s.runqueue && y in s.runqueue && x != y && PairSettled(View(s), x, y)
    modifies s
    ensures Sound(s, es') && k <= |cmds|
    ensures IsRun(trace, cmds, s.idle) && |trace| == k + 1 && trace[0] == old(ShotOf(s))
    ensures if ok then trace[k] == ShotOf(s) && (k < |cmds| ==> x !in s.runqueue || y !in s.runqueue)
            else k < |cmds| && !Safe(trace[k], cmds[k], s.idle)
    ensures x in s.cpuRuntime && y in s.cpuRuntime && Gap(View(s), x, y) <= Max(old(Gap(View(s), x, y)), TICK)
  {
    hide Scheduler.Valid, Balanced, Effect, PairSettled, Settled, Safe, Happened, Queued;
    assert PairSettled(View(s), x, y);
    PairKnown(View(s), x, y);
    QueueExact(s);
    k, ok, trace, es' := 0, true, [ShotOf(s)], es;
    while k < |cmds| && x in s.runqueue && y in s.runqueue
      invariant Sound(s, es') && k <= |cmds|
      invariant IsRun(trace, cmds, s.idle) && |trace| == k + 1 && trace[0] == old(ShotOf(s)) && trace[k] == ShotOf(s)
      invariant x in s.runqueue && y in s.runqueue ==> PairSettled(View(s), x, y)
      invariant x in s.cpuRuntime && y in s.cpuRuntime && Gap(View(s), x, y) <= Max(old(Gap(View(s), x, y)), TICK)
    {
      ghost var v := View(s);
      QueuedPair(s, x, y);
      ok, es' := Execute(s, cmds[k], es');
      FairEffect(v, View(s), s.idle, x, y);
      if !ok {
        return;
      }
      QueueExact(s);
      RunLonger(trace, cmds, ShotOf(s), s.idle);
      k, trace := k + 1, trace + [ShotOf(s)];
    }
    ok := true;
  }

  lemma PairKnown(s: Sched, x: Entity, y: Entity)
    requires PairSettled(s, x, y)
    ensures x in s.a.cpu && y in s.a.cpu
  {
  }

  lemma QueuedPair(s: Scheduler, x: Entity, y: Entity)
    requires s.Valid() && x in s.runqueue && y in s.runqueue && x != y
    ensures BothQueued(View(s), s.idle, x, y)
  {
    SchedOk(s);
  }
}
