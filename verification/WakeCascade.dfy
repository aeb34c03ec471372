/**
 What changing one scheduling entity's state does to all of them: every thread waiting for the change is made
 runnable, which is a change of its own. The outcome is stated by reachability along the wait lists, and so is the
 one case in which the walk along a list goes wrong.
 */
module WakeCascade {
  import opened Entities

  datatype EntityState = STOPPED | SLEEPING | RUNNABLE | RUNNING

  type States = map<Entity, EntityState>

  /** Who waits for a change of each entity's state. */
  type Waiters = map<Entity, seq<Entity>>

  ghost predicate Closed(st: States, wt: Waiters) {
    && wt.Keys == st.Keys
    && forall x, w :: x in wt && w in wt[x] ==> w in st
  }

  ghost predicate WaitsFor(wt: Waiters, w: Entity, x: Entity) {
    x in wt && w in wt[x]
  }

  // ---------- the outcome ----------

  /** Entity x is e, or a change of e makes it runnable over at most n waits. */
  ghost predicate Within(st: States, wt: Waiters, e: Entity, x: Entity, n: nat)
    decreases n
  {
    || x == e
    || (n > 0 && x in st && st[x] != RUNNABLE
        && exists y :: WaitsFor(wt, x, y) && Within(st, wt, e, y, n - 1))
  }

  /** A change of e changes x: there is a chain of waits from x to e through entities that are not runnable. */
  ghost predicate Reached(st: States, wt: Waiters, e: Entity, x: Entity) {
    exists n: nat :: Within(st, wt, e, x, n)
  }

  /** The change of e comes back to e: one of those it reaches is waited for by e. */
  ghost predicate ComesBack(st: States, wt: Waiters, e: Entity) {
    exists y :: WaitsFor(wt, e, y) && Reached(st, wt, e, y)
  }

  /** The states after e was set to s. */
  ghost function StatesAfter(st: States, wt: Waiters, e: Entity, s: EntityState): States
    requires e in st
  {
    if st[e] == s then st
    else map x | x in st :: if x == e then s else if Reached(st, wt, e, x) then RUNNABLE else st[x]
  }

  /** The wait lists then: those of everything that has changed are empty. */
  ghost function WaitersAfter(st: States, wt: Waiters, e: Entity, s: EntityState): Waiters
    requires e in st
  {
    if st[e] == s then wt
    else map x | x in wt :: if Reached(st, wt, e, x) then [] else wt[x]
  }

  /** Whoever waits for something reached is reached itself, or is runnable. */
  lemma ReachStep(st: States, wt: Waiters, e: Entity, y: Entity, x: Entity)
    requires Reached(st, wt, e, y) && WaitsFor(wt, x, y) && x in st && st[x] != RUNNABLE
    ensures Reached(st, wt, e, x)
  {
    var n: nat :| Within(st, wt, e, y, n);
    assert Within(st, wt, e, x, n + 1);
  }

  lemma ReachedSelf(st: States, wt: Waiters, e: Entity)
    ensures Reached(st, wt, e, e)
  {
    assert Within(st, wt, e, e, 0);
  }

  /** The last wait on the way to x. */
  lemma ReachedFrom(st: States, wt: Waiters, e: Entity, x: Entity) returns (y: Entity)
    requires Reached(st, wt, e, x) && x != e
    ensures x in st && st[x] != RUNNABLE && WaitsFor(wt, x, y) && Reached(st, wt, e, y)
  {
    var n: nat :| Within(st, wt, e, x, n);
    y :| WaitsFor(wt, x, y) && Within(st, wt, e, y, n - 1);
  }

  // ---------- on the way ----------

  /** Entity x was set to another state on the way from st to st'. */
  ghost predicate Changed(st: States, st': States, x: Entity) {
    x in st && x in st' && st'[x] != st[x]
  }

  /**
   The first k waiters of e have been woken since e was set to s: nobody else has changed who is not reached, the
   waiters of all who have changed (and these k) are runnable, and the wait lists of those woken are empty.
   */
  ghost predicate Woken(st: States, wt: Waiters, e: Entity, s: EntityState, k: int, st': States, wt': Waiters) {
    && e in st && st[e] != s && wt.Keys == st.Keys && st'.Keys == st.Keys && wt'.Keys == st.Keys && 0 <= k <= |wt[e]|
    && st'[e] == s
    && (forall x :: x in st && x != e ==> st'[x] == st[x] || st'[x] == RUNNABLE)
    && (forall x :: x in st ==> wt'[x] == if x != e && Changed(st, st', x) then [] else wt[x])
    && (forall x, w :: x != e && Changed(st, st', x) && WaitsFor(wt, w, x) ==> w in st' && st'[w] == RUNNABLE)
    && (forall j :: 0 <= j < k ==> wt[e][j] in st' && st'[wt[e][j]] == RUNNABLE)
    && (forall x :: x != e && Changed(st, st', x) ==> Reached(st, wt, e, x))
  }

  lemma NoneWokenYet(st: States, wt: Waiters, e: Entity, s: EntityState)
    requires e in st && st[e] != s && wt.Keys == st.Keys
    ensures Woken(st, wt, e, s, 0, st[e := s], wt)
  {
  }

  /** What is reached from a waiter of e, in the middle of the walk along e's list, is reached from e. */
  lemma ReachCarried(st: States, wt: Waiters, e: Entity, s: EntityState, k: int, st1: States, wt1: Waiters, x: Entity)
    requires Closed(st, wt) && Woken(st, wt, e, s, k, st1, wt1) && k < |wt[e]|
    requires Reached(st1, wt1, wt[e][k], x) && (wt[e][k] == e || st1[wt[e][k]] != RUNNABLE)
    ensures Reached(st, wt, e, x)
  {
    var n: nat :| Within(st1, wt1, wt[e][k], x, n);
    CarriedWithin(st, wt, e, s, k, st1, wt1, x, n);
  }

  lemma {:induction false} CarriedWithin(st: States, wt: Waiters, e: Entity, s: EntityState, k: int, st1: States,
                                         wt1: Waiters, x: Entity, n: nat)
    requires Closed(st, wt) && Woken(st, wt, e, s, k, st1, wt1) && k < |wt[e]|
    requires Within(st1, wt1, wt[e][k], x, n) && (wt[e][k] == e || st1[wt[e][k]] != RUNNABLE)
    ensures Reached(st, wt, e, x)
    decreases n
  {
    ReachedSelf(st, wt, e);
    var w := wt[e][k];
    if x != e {
      if x == w {
        assert WaitsFor(wt, w, e);
        ReachStep(st, wt, e, e, w);
      } else {
        var y :| WaitsFor(wt1, x, y) && Within(st1, wt1, w, y, n - 1);
        CarriedWithin(st, wt, e, s, k, st1, wt1, y, n - 1);
        assert WaitsFor(wt, x, y);
        ReachStep(st, wt, e, y, x);
      }
    }
  }

  /** Waking an entity changes exactly what is reached from it. */
  lemma WakingChanges(st: States, wt: Waiters, w: Entity, x: Entity)
    requires w in st && st[w] != RUNNABLE && x in st
    ensures Changed(st, StatesAfter(st, wt, w, RUNNABLE), x) <==> Reached(st, wt, w, x)
    ensures StatesAfter(st, wt, w, RUNNABLE)[x] == if Reached(st, wt, w, x) then RUNNABLE else st[x]
  {
    ReachedSelf(st, wt, w);
    if Reached(st, wt, w, x) && x != w {
      var y := ReachedFrom(st, wt, w, x);
    }
  }

  /** Waking makes entities runnable and nothing else. */
  lemma WakingOnly(st: States, wt: Waiters, w: Entity)
    requires w in st && wt.Keys == st.Keys
    ensures var st', wt' := StatesAfter(st, wt, w, RUNNABLE), WaitersAfter(st, wt, w, RUNNABLE);
            && st'.Keys == st.Keys && wt'.Keys == st.Keys && st'[w] == RUNNABLE
            && (forall x :: x in st ==> st'[x] == st[x] || st'[x] == RUNNABLE)
            && (forall x :: x in st ==> wt'[x] == if Changed(st, st', x) then [] else wt[x])
  {
    var st', wt' := StatesAfter(st, wt, w, RUNNABLE), WaitersAfter(st, wt, w, RUNNABLE);
    if st[w] != RUNNABLE {
      forall x | x in st
        ensures st'[x] == st[x] || st'[x] == RUNNABLE
        ensures wt'[x] == if Changed(st, st', x) then [] else wt[x]
      {
        WakingChanges(st, wt, w, x);
      }
      WakingChanges(st, wt, w, w);
    }
  }

  /** Whoever waits for something that waking w changes is runnable then. */
  lemma WakingWakes(st: States, wt: Waiters, w: Entity, x: Entity, v: Entity)
    requires w in st && x in st && v in st && wt.Keys == st.Keys && WaitsFor(wt, v, x)
    requires Changed(st, StatesAfter(st, wt, w, RUNNABLE), x)
    ensures StatesAfter(st, wt, w, RUNNABLE)[v] == RUNNABLE
  {
    WakingChanges(st, wt, w, x);
    if st[v] != RUNNABLE {
      ReachStep(st, wt, w, x, v);
    }
    WakingChanges(st, wt, w, v);
  }

  /** Waking the next waiter, with all that follows from it, when that does not come back to e. */
  lemma NextWoken(st: States, wt: Waiters, e: Entity, s: EntityState, k: int, st1: States, wt1: Waiters)
    requires Closed(st, wt) && Woken(st, wt, e, s, k, st1, wt1) && k < |wt[e]|
    ensures wt[e][k] in st1
    ensures var w := wt[e][k];
            var st2, wt2 := StatesAfter(st1, wt1, w, RUNNABLE), WaitersAfter(st1, wt1, w, RUNNABLE);
            !Changed(st1, st2, e) ==> Woken(st, wt, e, s, k + 1, st2, wt2)
  {
    hide Reached, StatesAfter, WaitersAfter;
    var w := wt[e][k];
    assert w in wt[e];
    var st2, wt2 := StatesAfter(st1, wt1, w, RUNNABLE), WaitersAfter(st1, wt1, w, RUNNABLE);
    WakingOnly(st1, wt1, w);
    if !Changed(st1, st2, e) {
      forall x, v | x != e && Changed(st, st2, x) && WaitsFor(wt, v, x)
        ensures v in st2 && st2[v] == RUNNABLE
      {
        StillWoken(st, wt, e, s, k, st1, wt1, x, v);
      }
      forall x | x != e && Changed(st, st2, x)
        ensures Reached(st, wt, e, x)
      {
        if !Changed(st, st1, x) {
          WokenReached(st, wt, e, s, k, st1, wt1, x);
        }
      }
    }
  }

  lemma StillWoken(st: States, wt: Waiters, e: Entity, s: EntityState, k: int, st1: States, wt1: Waiters,
                   x: Entity, v: Entity)
    requires Closed(st, wt) && Woken(st, wt, e, s, k, st1, wt1) && k < |wt[e]| && wt[e][k] in st1
    requires x != e && Changed(st, StatesAfter(st1, wt1, wt[e][k], RUNNABLE), x) && WaitsFor(wt, v, x)
    ensures v in st1 && StatesAfter(st1, wt1, wt[e][k], RUNNABLE)[v] == RUNNABLE
  {
    hide Reached, StatesAfter, WaitersAfter;
    assert v in st;
    WakingOnly(st1, wt1, wt[e][k]);
    if !Changed(st, st1, x) {
      WakingWakes(st1, wt1, wt[e][k], x, v);
    }
  }

  lemma WokenReached(st: States, wt: Waiters, e: Entity, s: EntityState, k: int, st1: States, wt1: Waiters, x: Entity)
    requires Closed(st, wt) && Woken(st, wt, e, s, k, st1, wt1) && k < |wt[e]| && wt[e][k] in st1
    requires Changed(st1, StatesAfter(st1, wt1, wt[e][k], RUNNABLE), x)
    ensures Reached(st, wt, e, x)
  {
    hide Reached, Woken;
    WokenKeys(st, wt, e, s, k, st1, wt1);
    WakingChanges(st1, wt1, wt[e][k], x);
    ReachCarried(st, wt, e, s, k, st1, wt1, x);
  }

  lemma WokenKeys(st: States, wt: Waiters, e: Entity, s: EntityState, k: int, st': States, wt': Waiters)
    requires Woken(st, wt, e, s, k, st', wt')
    ensures e in st && wt.Keys == st.Keys == st'.Keys == wt'.Keys && st[e] != s && st'[e] == s && wt'[e] == wt[e]
    ensures 0 <= k <= |wt[e]|
  {
  }

  /** If waking a waiter changes e, then e waits for something that its own change reaches. */
  lemma CameBack(st: States, wt: Waiters, e: Entity, s: EntityState, k: int, st1: States, wt1: Waiters)
    requires Closed(st, wt) && Woken(st, wt, e, s, k, st1, wt1) && k < |wt[e]| && wt[e][k] in st1
    requires Changed(st1, StatesAfter(st1, wt1, wt[e][k], RUNNABLE), e)
    ensures ComesBack(st, wt, e)
    ensures StatesAfter(st1, wt1, wt[e][k], RUNNABLE)[e] == RUNNABLE && s != RUNNABLE
    ensures e in wt1 && WaitersAfter(st1, wt1, wt[e][k], RUNNABLE)[e] == []
  {
    var w := wt[e][k];
    WakingChanges(st1, wt1, w, e);
    WakingOnly(st1, wt1, w);
    if w == e {
      ReachedSelf(st, wt, e);
      assert WaitsFor(wt, e, e);
    } else {
      var y := ReachedFrom(st1, wt1, w, e);
      ReachCarried(st, wt, e, s, k, st1, wt1, y);
      assert WaitsFor(wt, e, y);
    }
  }

  /** When all waiters have been woken, everything reached has changed. */
  lemma {:induction false} AllReachedChanged(st: States, wt: Waiters, e: Entity, s: EntityState, st': States,
                                             wt': Waiters, x: Entity, n: nat)
    requires Closed(st, wt) && e in wt && Woken(st, wt, e, s, |wt[e]|, st', wt') && Within(st, wt, e, x, n)
    ensures Changed(st, st', x)
    decreases n
  {
    if x != e {
      var y :| WaitsFor(wt, x, y) && Within(st, wt, e, y, n - 1);
      AllReachedChanged(st, wt, e, s, st', wt', y, n - 1);
      if y == e {
        var j :| 0 <= j < |wt[e]| && wt[e][j] == x;
      }
    }
  }

  /** Then the states are the outcome, and so are the lists once that of e is cleared; and nothing came back to e. */
  lemma AllWoken(st: States, wt: Waiters, e: Entity, s: EntityState, st': States, wt': Waiters)
    requires Closed(st, wt) && e in wt && Woken(st, wt, e, s, |wt[e]|, st', wt')
    ensures st' == StatesAfter(st, wt, e, s) && wt'[e := []] == WaitersAfter(st, wt, e, s)
    ensures s != RUNNABLE ==> !ComesBack(st, wt, e)
  {
    forall x | x in st
      ensures Changed(st, st', x) <==> Reached(st, wt, e, x)
    {
      ReachedSelf(st, wt, e);
      if Reached(st, wt, e, x) {
        var n: nat :| Within(st, wt, e, x, n);
        AllReachedChanged(st, wt, e, s, st', wt', x, n);
      }
    }
    if ComesBack(st, wt, e) {
      var y :| WaitsFor(wt, e, y) && Reached(st, wt, e, y);
      if y == e {
        var j :| 0 <= j < |wt[e]| && wt[e][j] == e;
      } else {
        assert Changed(st, st', y);
      }
      assert st'[e] == RUNNABLE;
    }
  }

  // ---------- what the outcome does not depend on, and when it is safe ----------

  /** The same entities wait for each entity. */
  ghost predicate SameWaiters(wt: Waiters, wt': Waiters) {
    wt.Keys == wt'.Keys && forall x, w :: WaitsFor(wt, w, x) <==> WaitsFor(wt', w, x)
  }

  lemma {:induction false} SameWithin(st: States, wt: Waiters, wt': Waiters, e: Entity, x: Entity, n: nat)
    requires SameWaiters(wt, wt') && Within(st, wt, e, x, n)
    ensures Within(st, wt', e, x, n)
    decreases n
  {
    if x != e {
      var y :| WaitsFor(wt, x, y) && Within(st, wt, e, y, n - 1);
      SameWithin(st, wt, wt', e, y, n - 1);
      assert WaitsFor(wt', x, y);
    }
  }

  lemma SameReached(st: States, wt: Waiters, wt': Waiters, e: Entity, x: Entity)
    requires SameWaiters(wt, wt') && Reached(st, wt, e, x)
    ensures Reached(st, wt', e, x)
  {
    var n: nat :| Within(st, wt, e, x, n);
    SameWithin(st, wt, wt', e, x, n);
  }

  /** The order of the wait lists has no influence on the states, nor on whether the change comes back. */
  lemma OrderIrrelevant(st: States, wt: Waiters, wt': Waiters, e: Entity, s: EntityState)
    requires e in st && SameWaiters(wt, wt')
    ensures StatesAfter(st, wt, e, s) == StatesAfter(st, wt', e, s)
    ensures ComesBack(st, wt, e) <==> ComesBack(st, wt', e)
  {
    hide Within;
    forall x
      ensures Reached(st, wt, e, x) <==> Reached(st, wt', e, x)
    {
      if Reached(st, wt, e, x) { SameReached(st, wt, wt', e, x); }
      if Reached(st, wt', e, x) { SameReached(st, wt', wt, e, x); }
    }
  }

  /** The wait relation has no cycle: whoever waits ranks above what it waits for. */
  ghost predicate Ranked(wt: Waiters, rank: Entity -> nat) {
    forall x, w :: WaitsFor(wt, w, x) ==> rank(x) < rank(w)
  }

  /** Without cycles only entities above e are reached. */
  lemma {:induction false} ReachedAbove(st: States, wt: Waiters, rank: Entity -> nat, e: Entity, x: Entity, n: nat)
    requires Ranked(wt, rank) && Within(st, wt, e, x, n)
    ensures x == e || rank(e) < rank(x)
    decreases n
  {
    if x != e {
      var y :| WaitsFor(wt, x, y) && Within(st, wt, e, y, n - 1);
      ReachedAbove(st, wt, rank, e, y, n - 1);
    }
  }

  /** So no change comes back. */
  lemma AcyclicSafe(st: States, wt: Waiters, rank: Entity -> nat, e: Entity)
    requires Ranked(wt, rank)
    ensures !ComesBack(st, wt, e)
  {
    if ComesBack(st, wt, e) {
      var y :| WaitsFor(wt, e, y) && Reached(st, wt, e, y);
      var n: nat :| Within(st, wt, e, y, n);
      ReachedAbove(st, wt, rank, e, y, n);
    }
  }

  /** If a sleeps and waits for b, then b cannot fall asleep waiting for a. */
  lemma MutualWait(st: States, wt: Waiters, a: Entity, b: Entity)
    requires a in st && st[a] != RUNNABLE && WaitsFor(wt, a, b) && WaitsFor(wt, b, a)
    ensures ComesBack(st, wt, b)
  {
    ReachedSelf(st, wt, b);
    ReachStep(st, wt, b, b, a);
  }

  /** Two threads that wait for each other, the second of them about to fall asleep. */
  lemma MutualWaitComesBack(a: Entity, b: Entity)
    requires a != b
    ensures ComesBack(map[a := SLEEPING, b := RUNNABLE], map[a := [b], b := [a]], b)
  {
    var st, wt := map[a := SLEEPING, b := RUNNABLE], map[a := [b], b := [a]];
    assert WaitsFor(wt, a, b) && WaitsFor(wt, b, a);
    MutualWait(st, wt, a, b);
  }

  /** A cycle does no harm while one of those on it is runnable. */
  lemma HarmlessCycle(a: Entity, b: Entity)
    requires a != b
    ensures !ComesBack(map[a := RUNNABLE, b := RUNNABLE], map[a := [b], b := [a]], b)
  {
    var st, wt := map[a := RUNNABLE, b := RUNNABLE], map[a := [b], b := [a]];
    assert forall y :: WaitsFor(wt, b, y) ==> y == a;
    if Reached(st, wt, b, a) {
      var z := ReachedFrom(st, wt, b, a);
    }
  }
}
