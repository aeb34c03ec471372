/**
 The completely fair algorithm's choice, CPU accounting by timer ticks, and what both guarantee over whole runs:
 how far two queued entities can drift apart, and where the elapsed time goes.
 */
module CfsAccounting {
  import opened Entities
  import opened LinkedLists
  import opened Options

  /** Nanoseconds between two timer interrupts. */
  const TICK := 10_000_000

  /** Per entity the CPU time used and when it was last put on the processor; who runs; the kernel's runtime. */
  datatype Accounts = Accounts(cpu: map<Entity, nat>, start: map<Entity, nat>, current: Option<Entity>, runtime: nat)

  ghost predicate Covers(a: Accounts, q: seq<Entity>, idle: Entity) {
    && a.start.Keys == a.cpu.Keys && idle in a.cpu && (a.current.Some? ==> a.current.value in a.cpu)
    && forall i :: 0 <= i < |q| ==> q[i] in a.cpu
  }

  // ---------- the choice ----------

  /** The first entity of least CPU time. */
  function FirstMin(q: seq<Entity>, cpu: map<Entity, nat>): (m: Entity)
    requires q != [] && forall i :: 0 <= i < |q| ==> q[i] in cpu
    ensures m in q
  {
    if |q| == 1 then q[0]
    else
      var m, last := FirstMin(q[..|q| - 1], cpu), q[|q| - 1];
      if cpu[last] < cpu[m] then last else m
  }

  lemma FirstMinSnoc(q: seq<Entity>, i: nat, cpu: map<Entity, nat>)
    requires i < |q| && forall j :: 0 <= j < |q| ==> q[j] in cpu
    ensures i == 0 ==> FirstMin(q[..1], cpu) == q[0]
    ensures i > 0 ==> FirstMin(q[..i + 1], cpu) == var m := FirstMin(q[..i], cpu);
      if cpu[q[i]] < cpu[m] then q[i] else m
    ensures i > 0 ==> FirstMin(q[..i], cpu) in cpu
  {
    assert q[..i + 1][..i] == q[..i];
  }

  /** It has the least time of all, and everything in front of it has more. */
  lemma {:induction false} FirstMinIsLeast(q: seq<Entity>, cpu: map<Entity, nat>) returns (k: nat)
    requires q != [] && forall i :: 0 <= i < |q| ==> q[i] in cpu
    ensures k < |q| && q[k] == FirstMin(q, cpu)
    ensures forall i :: 0 <= i < |q| ==> cpu[q[k]] <= cpu[q[i]]
    ensures forall i :: 0 <= i < k ==> cpu[q[k]] < cpu[q[i]]
  {
    if |q| == 1 {
      k := 0;
    } else {
      var p := q[..|q| - 1];
      k := FirstMinIsLeast(p, cpu);
      if cpu[q[|q| - 1]] < cpu[p[k]] {
        k := |q| - 1;
      }
    }
  }

  // ---------- accounting and scheduling ----------

  /** The running entity is charged for the time since it was put on the processor. */
  function Accounted(a: Accounts): Accounts
    requires a.current.Some? ==>
      a.current.value in a.cpu && a.current.value in a.start
      && a.start[a.current.value] <= a.runtime
  {
    match a.current
    case None => a
    case Some(c) => a.(cpu := a.cpu[c := a.cpu[c] + (a.runtime - a.start[c])], start := a.start[c := a.runtime])
  }

  /** The algorithm's choice, or the idle entity, is put on the processor. */
  function Scheduled(a: Accounts, q: seq<Entity>, idle: Entity): Accounts
    requires forall i :: 0 <= i < |q| ==> q[i] in a.cpu
  {
    var next := if q == [] then idle else FirstMin(q, a.cpu);
    a.(current := Some(next), start := a.start[next := a.runtime])
  }

  /**
   Of the queued entities one of least CPU time runs, the first of these, or the idle one if nothing is queued. It was
   put on the processor now; nobody has been charged.
   */
  ghost predicate Decided(a: Accounts, b: Accounts, q: seq<Entity>, idle: Entity) {
    && b.current.Some? && b.cpu == a.cpu && b.runtime == a.runtime
    && b.start == a.start[b.current.value := a.runtime]
    && if q == [] then b.current.value == idle else LeastServed(q, b.cpu, b.current.value)
  }

  ghost predicate LeastServed(q: seq<Entity>, cpu: map<Entity, nat>, c: Entity) {
    exists k :: 0 <= k < |q| && q[k] == c && c in cpu && LeastAt(q, cpu, k)
  }

  ghost predicate LeastAt(q: seq<Entity>, cpu: map<Entity, nat>, k: int)
    requires 0 <= k < |q| && q[k] in cpu
  {
    && (forall i :: 0 <= i < |q| ==> q[i] in cpu && cpu[q[k]] <= cpu[q[i]])
    && (forall i :: 0 <= i < k ==> q[i] in cpu && cpu[q[k]] < cpu[q[i]])
  }

  lemma ScheduledDecides(a: Accounts, q: seq<Entity>, idle: Entity)
    requires forall i :: 0 <= i < |q| ==> q[i] in a.cpu
    ensures Decided(a, Scheduled(a, q, idle), q, idle)
  {
    hide FirstMin;
    if q != [] {
      var k := FirstMinIsLeast(q, a.cpu);
      assert LeastAt(q, a.cpu, k);
    }
  }

  /** A tick of 10 ms has gone by, and whoever was running has been charged for it. */
  ghost predicate Charged(a: Accounts, b: Accounts) {
    && b.runtime == a.runtime + 10_000_000 && b.current == a.current
    && match a.current
       case None => b.cpu == a.cpu && b.start == a.start
       case Some(c) =>
         c in a.cpu && b.cpu == a.cpu[c := a.cpu[c] + 10_000_000] && b.start == a.start[c := b.runtime]
  }

  /** The running entity's start time is the kernel's runtime, which only the ticks advance. */
  ghost predicate InStep(a: Accounts) {
    a.current.Some? ==> a.current.value in a.start && a.start[a.current.value] == a.runtime
  }

  /** A timer interrupt. */
  function Ticked(a: Accounts, q: seq<Entity>, idle: Entity): Accounts
    requires a.current.Some? ==>
      a.current.value in a.cpu && a.current.value in a.start
      && a.start[a.current.value] <= a.runtime
    requires forall i :: 0 <= i < |q| ==> q[i] in a.cpu
  {
    Scheduled(Accounted(a.(runtime := a.runtime + TICK)), q, idle)
  }

  // ---------- runs ----------

  /** A tick charges and then decides. */
  ghost predicate TickDone(a: Accounts, b: Accounts, q: seq<Entity>, idle: Entity) {
    exists m :: Charged(a, m) && Decided(m, b, q, idle)
  }

  /** What happens to the scheduler: timer ticks, yields, and entities entering and leaving the run queue. */
  datatype Event = Tick | Yield | Enter(entity: Entity) | Leave(entity: Entity)

  datatype Sched = Sched(a: Accounts, q: seq<Entity>)

  ghost predicate Ok(s: Sched, idle: Entity) {
    Covers(s.a, s.q, idle) && InStep(s.a)
  }

  /** Only existing entities enter. */
  ghost predicate Known(s: Sched, evs: seq<Event>) {
    forall i :: 0 <= i < |evs| && evs[i].Enter? ==> evs[i].entity in s.a.cpu
  }

  ghost function Step(s: Sched, idle: Entity, ev: Event): Sched
    requires Ok(s, idle)
  {
    match ev
    case Tick => s.(a := Ticked(s.a, s.q, idle))
    case Yield => s.(a := Scheduled(s.a, s.q, idle))
    case Enter(e) => s.(q := s.q + [e])
    case Leave(e) => s.(q := RemoveFirst(s.q, e))
  }

  lemma {:induction false} RemoveFirstMembers(q: seq<Entity>, x: Entity)
    ensures forall y :: y in RemoveFirst(q, x) ==> y in q
    ensures forall y :: y in q && y != x ==> y in RemoveFirst(q, x)
  {
    if q != [] && q[0] != x {
      RemoveFirstMembers(q[1..], x);
      assert q == [q[0]] + q[1..];
    }
  }

  lemma StepOk(s: Sched, idle: Entity, ev: Event)
    requires Ok(s, idle) && (ev.Enter? ==> ev.entity in s.a.cpu)
    ensures Ok(Step(s, idle, ev), idle) && Step(s, idle, ev).a.cpu.Keys == s.a.cpu.Keys
  {
    match ev
    case Leave(e) =>
      RemoveFirstMembers(s.q, e);
      var r := RemoveFirst(s.q, e);
      forall i | 0 <= i < |r|
        ensures r[i] in s.a.cpu
      {
        assert r[i] in r;
      }
    case _ =>
  }

  ghost function After(s: Sched, idle: Entity, evs: seq<Event>): (t: Sched)
    requires Ok(s, idle) && Known(s, evs)
    ensures Ok(t, idle)
    decreases |evs|
  {
    if evs == [] then s
    else
      StepOk(s, idle, evs[0]);
      After(Step(s, idle, evs[0]), idle, evs[1..])
  }

  // ---------- fairness ----------

  ghost function Gap(s: Sched, x: Entity, y: Entity): nat
    requires x in s.a.cpu && y in s.a.cpu
  {
    if s.a.cpu[x] <= s.a.cpu[y] then s.a.cpu[y] - s.a.cpu[x] else s.a.cpu[x] - s.a.cpu[y]
  }

  ghost function Max(a: nat, b: nat): nat { if a <= b then b else a }

  /** If one of the two is running, it is not ahead of the other. */
  ghost predicate Settled(s: Sched, x: Entity, y: Entity)
    requires x in s.a.cpu && y in s.a.cpu
  {
    && (s.a.current == Some(x) ==> s.a.cpu[x] <= s.a.cpu[y])
    && (s.a.current == Some(y) ==> s.a.cpu[y] <= s.a.cpu[x])
  }

  ghost predicate BothQueued(s: Sched, idle: Entity, x: Entity, y: Entity) {
    Ok(s, idle) && x in s.q && y in s.q && x != y && x != idle && y != idle
  }

  lemma FairTick(s: Sched, idle: Entity, x: Entity, y: Entity)
    requires BothQueued(s, idle, x, y) && Settled(s, x, y)
    ensures var t := Step(s, idle, Tick);
            x in t.a.cpu && y in t.a.cpu && Settled(t, x, y) && Gap(t, x, y) <= Max(Gap(s, x, y), TICK)
  {
    hide FirstMin;
    var a := Accounted(s.a.(runtime := s.a.runtime + TICK));
    var k := FirstMinIsLeast(s.q, a.cpu);
  }

  lemma FairYield(s: Sched, idle: Entity, x: Entity, y: Entity)
    requires BothQueued(s, idle, x, y)
    ensures var t := Step(s, idle, Yield); t.a.cpu == s.a.cpu && Settled(t, x, y)
  {
    hide FirstMin;
    var k := FirstMinIsLeast(s.q, s.a.cpu);
  }

  lemma FairStep(s: Sched, idle: Entity, ev: Event, x: Entity, y: Entity)
    requires BothQueued(s, idle, x, y) && Settled(s, x, y) && ev != Leave(x) && ev != Leave(y)
    requires ev.Enter? ==> ev.entity in s.a.cpu
    ensures var t := Step(s, idle, ev);
            BothQueued(t, idle, x, y) && Settled(t, x, y) && Gap(t, x, y) <= Max(Gap(s, x, y), TICK)
  {
    hide Ticked, Scheduled, RemoveFirst;
    StepOk(s, idle, ev);
    match ev
    case Tick => FairTick(s, idle, x, y);
    case Yield => FairYield(s, idle, x, y);
    case Enter(e) =>
    case Leave(e) => RemoveFirstMembers(s.q, e);
  }

  /** Two entities that stay queued drift apart no further than they were, or one tick, whoever else comes and goes. */
  lemma {:induction false} Fair(s: Sched, idle: Entity, x: Entity, y: Entity, evs: seq<Event>)
    requires BothQueued(s, idle, x, y) && Settled(s, x, y) && Known(s, evs)
    requires forall i :: 0 <= i < |evs| ==> evs[i] != Leave(x) && evs[i] != Leave(y)
    ensures var t := After(s, idle, evs); x in t.a.cpu && y in t.a.cpu && Gap(t, x, y) <= Max(Gap(s, x, y), TICK)
    decreases |evs|
  {
    if evs != [] {
      hide Ticked, Scheduled, Accounted, FirstMin, RemoveFirst;
      FairStep(s, idle, evs[0], x, y);
      StepOk(s, idle, evs[0]);
      Fair(Step(s, idle, evs[0]), idle, x, y, evs[1..]);
    }
  }

  /** If the one that is running is ahead, the next tick breaks the bound. */
  lemma Unfair(s: Sched, idle: Entity, x: Entity, y: Entity)
    requires BothQueued(s, idle, x, y) && !Settled(s, x, y)
    ensures Known(s, [Tick])
    ensures var t := After(s, idle, [Tick]); x in t.a.cpu && y in t.a.cpu && Gap(t, x, y) > Max(Gap(s, x, y), TICK)
  {
    var t := Step(s, idle, Tick);
    StepOk(s, idle, Tick);
    assert After(s, idle, [Tick]) == After(t, idle, []) == t;
  }

  /** The run evs, in which x and y stay queued, keeps the bound. */
  ghost predicate KeepsBound(s: Sched, idle: Entity, x: Entity, y: Entity, evs: seq<Event>)
    requires Ok(s, idle) && x in s.a.cpu && y in s.a.cpu
  {
    Known(s, evs) && (forall i :: 0 <= i < |evs| ==> evs[i] != Leave(x) && evs[i] != Leave(y)) ==>
      var t := After(s, idle, evs); x in t.a.cpu && y in t.a.cpu && Gap(t, x, y) <= Max(Gap(s, x, y), TICK)
  }

  /** The bound holds over every run exactly when it starts with neither of the two running ahead of the other. */
  lemma FairExact(s: Sched, idle: Entity, x: Entity, y: Entity)
    requires BothQueued(s, idle, x, y)
    ensures (forall evs :: KeepsBound(s, idle, x, y, evs)) <==> Settled(s, x, y)
  {
    if Settled(s, x, y) {
      forall evs
        ensures KeepsBound(s, idle, x, y, evs)
      {
        if Known(s, evs) && forall i :: 0 <= i < |evs| ==> evs[i] != Leave(x) && evs[i] != Leave(y) {
          Fair(s, idle, x, y, evs);
        }
      }
    } else {
      Unfair(s, idle, x, y);
      assert !KeepsBound(s, idle, x, y, [Tick]);
    }
  }

  /** Right after a scheduling decision with both queued, neither runs ahead of the other. */
  lemma ScheduledSettled(s: Sched, idle: Entity, x: Entity, y: Entity)
    requires BothQueued(s, idle, x, y)
    ensures Settled(Step(s, idle, Yield), x, y)
  {
    var k := FirstMinIsLeast(s.q, s.a.cpu);
  }

  // ---------- a start that is not settled ----------

  lemma {:induction false} AfterBoth(s: Sched, idle: Entity, evs: seq<Event>, fs: seq<Event>)
    requires Ok(s, idle) && Known(s, evs + fs)
    ensures Known(s, evs) && Known(After(s, idle, evs), fs)
    ensures After(s, idle, evs + fs) == After(After(s, idle, evs), idle, fs)
    ensures After(s, idle, evs).a.cpu.Keys == s.a.cpu.Keys
    decreases |evs|
  {
    forall i | 0 <= i < |evs| && evs[i].Enter?
      ensures evs[i].entity in s.a.cpu
    {
      assert (evs + fs)[i] == evs[i];
    }
    forall i | 0 <= i < |fs| && fs[i].Enter?
      ensures fs[i].entity in s.a.cpu
    {
      assert (evs + fs)[|evs| + i] == fs[i];
    }
    if evs == [] {
      assert evs + fs == fs;
    } else {
      hide Step;
      StepOk(s, idle, evs[0]);
      assert (evs + fs)[1..] == evs[1..] + fs;
      AfterBoth(Step(s, idle, evs[0]), idle, evs[1..], fs);
    }
  }

  /** Three entities, the idle one among them, before anything has run. */
  function AtRest(): Sched {
    Sched(Accounts(map[0 := 0, 1 := 0, 2 := 0], map[0 := 0, 1 := 0, 2 := 0], None, 0), [])
  }

  function Ticks(n: nat): (evs: seq<Event>)
    ensures |evs| == n && forall i :: 0 <= i < n ==> evs[i] == Tick
  {
    seq(n, _ => Tick)
  }

  /** Entity 1 runs alone for n ticks; then entity 2 joins. */
  function LateJoin(n: nat): seq<Event> { [Enter(1), Yield] + Ticks(n) + [Enter(2)] }

  /** Entity 1 has run alone for n ticks. */
  function RanAlone(n: nat): Sched {
    Sched(Accounts(map[0 := 0, 1 := n * TICK, 2 := 0], map[0 := 0, 1 := n * TICK, 2 := 0], Some(1), n * TICK), [1])
  }

  lemma {:induction false} Alone(n: nat)
    ensures Ok(AtRest(), 0) && Known(AtRest(), [Enter(1), Yield] + Ticks(n))
    ensures After(AtRest(), 0, [Enter(1), Yield] + Ticks(n)) == RanAlone(n)
  {
    var two := [Enter(1), Yield];
    if n == 0 {
      assert two + Ticks(0) == two;
      var s := Step(AtRest(), 0, Enter(1));
      assert two[1..] == [Yield];
      assert After(AtRest(), 0, two) == After(s, 0, [Yield]) == After(Step(s, 0, Yield), 0, []);
    } else {
      Alone(n - 1);
      assert two + Ticks(n) == (two + Ticks(n - 1)) + [Tick];
      AfterBoth(AtRest(), 0, two + Ticks(n - 1), [Tick]);
      OneTickAlone(n - 1);
    }
  }

  lemma OneTickAlone(n: nat)
    ensures Ok(RanAlone(n), 0) && Known(RanAlone(n), [Tick]) && After(RanAlone(n), 0, [Tick]) == RanAlone(n + 1)
  {
    var s := RanAlone(n);
    assert After(s, 0, [Tick]) == After(Step(s, 0, Tick), 0, []);
  }

  /**
   From rest, an entity that joins while another has run for n ticks sees the gap grow past the bound in the next tick,
   for every n from one on.
   */
  lemma UnfairExample(n: nat)
    requires n > 0
    ensures Ok(AtRest(), 0) && Known(AtRest(), LateJoin(n)) && Known(AtRest(), LateJoin(n) + [Tick])
    ensures var s, t := After(AtRest(), 0, LateJoin(n)), After(AtRest(), 0, LateJoin(n) + [Tick]);
            BothQueued(s, 0, 1, 2) && 1 in t.a.cpu && 2 in t.a.cpu
            && Gap(s, 1, 2) == n * TICK && Gap(t, 1, 2) == (n + 1) * TICK && Gap(t, 1, 2) > Max(Gap(s, 1, 2), TICK)
  {
    Alone(n);
    AfterBoth(AtRest(), 0, [Enter(1), Yield] + Ticks(n), [Enter(2)]);
    AfterBoth(AtRest(), 0, LateJoin(n), [Tick]);
    JoinAndTick(n);
  }

  lemma JoinAndTick(n: nat)
    ensures Ok(RanAlone(n), 0) && Known(RanAlone(n), [Enter(2)])
    ensures var s := After(RanAlone(n), 0, [Enter(2)]);
            s == RanAlone(n).(q := [1, 2]) && BothQueued(s, 0, 1, 2) && Known(s, [Tick])
            && var t := After(s, 0, [Tick]); t.a.cpu == map[0 := 0, 1 := (n + 1) * TICK, 2 := 0]
  {
    var r := RanAlone(n);
    var s := Step(r, 0, Enter(2));
    assert After(r, 0, [Enter(2)]) == After(s, 0, []) == s;
    assert s.q[0] == 1 && s.q[1] == 2;
    assert After(s, 0, [Tick]) == After(Step(s, 0, Tick), 0, []);
  }

  // ---------- conservation ----------

  /** The CPU time of all the entities listed. */
  function Total(es: seq<Entity>, cpu: map<Entity, nat>): nat
    requires forall i :: 0 <= i < |es| ==> es[i] in cpu
  {
    if es == [] then 0 else cpu[es[0]] + Total(es[1..], cpu)
  }

  ghost predicate Distinct(es: seq<Entity>) {
    forall i, j :: 0 <= i < j < |es| ==> es[i] != es[j]
  }

  lemma {:induction false} TotalUpdate(es: seq<Entity>, cpu: map<Entity, nat>, c: Entity, v: nat)
    requires forall i :: 0 <= i < |es| ==> es[i] in cpu
    requires Distinct(es) && c in cpu
    ensures Total(es, cpu[c := v]) == if c in es then Total(es, cpu) - cpu[c] + v else Total(es, cpu)
    ensures c in es ==> Total(es, cpu) >= cpu[c]
  {
    if es != [] {
      TotalUpdate(es[1..], cpu, c, v);
      assert es == [es[0]] + es[1..];
      assert es[0] == c ==> c !in es[1..];
    }
  }

  /** es lists every entity once. */
  ghost predicate Lists(es: seq<Entity>, a: Accounts) {
    Distinct(es) && (forall e :: e in es <==> e in a.cpu) && forall i :: 0 <= i < |es| ==> es[i] in a.cpu
  }

  lemma StepConserves(s: Sched, idle: Entity, ev: Event, es: seq<Entity>)
    requires Ok(s, idle) && Lists(es, s.a) && (ev.Enter? ==> ev.entity in s.a.cpu)
    ensures var t := Step(s, idle, ev);
            && Ok(t, idle) && Lists(es, t.a)
            && t.a.runtime == s.a.runtime + (if ev.Tick? then TICK else 0)
            && Total(es, t.a.cpu) == Total(es, s.a.cpu) + (if s.a.current.Some? then t.a.runtime - s.a.runtime else 0)
            && (s.a.current.Some? || ev.Tick? || ev.Yield? <==> t.a.current.Some?)
  {
    hide FirstMin, RemoveFirst, Total, Distinct;
    StepOk(s, idle, ev);
    if ev.Tick? && s.a.current.Some? {
      var c := s.a.current.value;
      assert c in es;
      TotalUpdate(es, s.a.cpu, c, s.a.cpu[c] + TICK);
      assert Step(s, idle, ev).a.cpu == s.a.cpu[c := s.a.cpu[c] + TICK];
    } else {
      assert Step(s, idle, ev).a.cpu == s.a.cpu;
    }
  }

  /** While an entity is running, over every run the entities together are charged exactly the time that passes. */
  lemma {:induction false} TimeConserved(s: Sched, idle: Entity, evs: seq<Event>, es: seq<Entity>)
    requires Ok(s, idle) && Known(s, evs) && Lists(es, s.a) && s.a.current.Some?
    ensures var t := After(s, idle, evs);
            Lists(es, t.a) && Total(es, t.a.cpu) - Total(es, s.a.cpu) == t.a.runtime - s.a.runtime
    decreases |evs|
  {
    if evs != [] {
      hide Ticked, Scheduled, Accounted, FirstMin, RemoveFirst, Total;
      StepConserves(s, idle, evs[0], es);
      StepOk(s, idle, evs[0]);
      TimeConserved(Step(s, idle, evs[0]), idle, evs[1..], es);
    }
  }

  /** When the first scheduling decision was made in a run: the runtime then, or now if there was none. */
  ghost function FirstSchedule(s: Sched, idle: Entity, evs: seq<Event>): nat
    requires Ok(s, idle) && Known(s, evs)
    decreases |evs|
  {
    if evs == [] || s.a.current.Some? then s.a.runtime
    else
      StepOk(s, idle, evs[0]);
      FirstSchedule(Step(s, idle, evs[0]), idle, evs[1..])
  }

  /**
   From a start with nothing charged and nothing running, the total is the time since the first scheduling decision.
   */
  lemma {:induction false} TotalIsElapsed(s: Sched, idle: Entity, evs: seq<Event>, es: seq<Entity>)
    requires Ok(s, idle) && Known(s, evs) && Lists(es, s.a) && Total(es, s.a.cpu) == 0 && s.a.current.None?
    ensures var t := After(s, idle, evs);
            Lists(es, t.a) && Total(es, t.a.cpu) == t.a.runtime - FirstSchedule(s, idle, evs)
    decreases |evs|
  {
    if evs != [] {
      hide Ticked, Scheduled, Accounted, FirstMin, RemoveFirst, Total;
      StepConserves(s, idle, evs[0], es);
      StepOk(s, idle, evs[0]);
      var t := Step(s, idle, evs[0]);
      if t.a.current.Some? {
        TimeConserved(t, idle, evs[1..], es);
      } else {
        TotalIsElapsed(t, idle, evs[1..], es);
      }
    }
  }
}
