/** The round-robin scheduling algorithm over the ring list, and how long a queued entity waits. */
module RoundRobin {
  import opened Entities
  import opened Options
  import opened RingLists

  class RoundRobinScheduler {
    const queue: List<Entity>

    ghost predicate Valid()
      reads queue, queue.nodes
    {
      queue.Valid()
    }

    ghost function Queue(): seq<Entity>
      reads queue
    {
      queue.Contents()
    }

    constructor ()
      ensures Valid() && Queue() == [] && fresh(queue) && queue.nodes == []
    {
      queue := new List();
    }

    method AddToRunqueue(entity: Entity)
      requires Valid()
      modifies queue, queue.nodes
      ensures Valid() && Queue() == AfterEvent(old(Queue()), Add(entity))
      ensures forall n :: n in queue.nodes ==> n in old(queue.nodes) || fresh(n)
    {
      queue.AddToTail(entity);
    }

    method RemoveFromRunqueue(entity: Entity)
      requires Valid()
      modifies queue, queue.nodes
      ensures Valid() && Queue() == AfterEvent(old(Queue()), Remove(entity))
      ensures forall n :: n in queue.nodes ==> n in old(queue.nodes)
    {
      queue.Remove(entity);
    }

    /** The entity at the front, which moves to the end. */
    method PickNextEntity() returns (next: Option<Entity>)
      requires Valid()
      modifies queue
      ensures Valid() && next == Picked(old(Queue()), Pick) && Queue() == AfterEvent(old(Queue()), Pick)
      ensures forall n :: n in queue.nodes ==> n in old(queue.nodes)
    {
      if queue.count == 0 {
        return None;
      }
      var e := queue.Skew();
      return Some(e);
    }
  }

  // ---------- runs ----------

  datatype Event = Add(entity: Entity) | Remove(entity: Entity) | Pick

  function AfterEvent(q: seq<Entity>, ev: Event): seq<Entity> {
    match ev
    case Add(e) => q + [e]
    case Remove(e) => Without(q, e)
    case Pick => if q == [] then [] else q[1..] + [q[0]]
  }

  function Picked(q: seq<Entity>, ev: Event): Option<Entity> {
    if ev.Pick? && q != [] then Some(q[0]) else None
  }

  /** How often a run picks. */
  function Picks(evs: seq<Event>): nat {
    if evs == [] then 0 else (if evs[0].Pick? then 1 else 0) + Picks(evs[1..])
  }

  /** Whether e is among the entities a run picks. */
  predicate IsPicked(q: seq<Entity>, evs: seq<Event>, e: Entity)
    decreases |evs|
  {
    evs != [] && (Picked(q, evs[0]) == Some(e) || IsPicked(AfterEvent(q, evs[0]), evs[1..], e))
  }

  /** Removing others moves an entity towards the front at most. */
  lemma {:induction false} WithoutPosition(q: seq<Entity>, x: Entity, p: nat) returns (p': nat)
    requires p < |q| && q[p] != x
    ensures p' <= p && p' < |Without(q, x)| && Without(q, x)[p'] == q[p]
  {
    if p == 0 {
      p' := 0;
    } else {
      var r := WithoutPosition(q[1..], x, p - 1);
      p' := if q[0] == x then r else r + 1;
    }
  }

  /**
   An entity at position p that stays queued is picked by the (p+1)-st pick, whatever is added or removed meanwhile.
   */
  lemma {:induction false} BoundedWaiting(q: seq<Entity>, e: Entity, p: nat, evs: seq<Event>)
    requires p < |q| && q[p] == e
    requires forall i :: 0 <= i < |evs| ==> evs[i] != Remove(e)
    requires Picks(evs) >= p + 1
    ensures IsPicked(q, evs, e)
    decreases |evs|
  {
    hide Without;
    match evs[0]
    case Add(x) =>
      BoundedWaiting(q + [x], e, p, evs[1..]);
    case Remove(x) =>
      var p' := WithoutPosition(q, x, p);
      BoundedWaiting(Without(q, x), e, p', evs[1..]);
    case Pick =>
      if p > 0 {
        BoundedWaiting(q[1..] + [q[0]], e, p - 1, evs[1..]);
      }
  }

  /** The bound is tight: while nothing is removed, an entity first queued at position p is not picked in p picks. */
  lemma {:induction false} NotPickedEarlier(q: seq<Entity>, e: Entity, p: nat, evs: seq<Event>)
    requires p <= |q| && e !in q[..p] && (p < |q| ==> q[p] == e)
    requires forall i :: 0 <= i < |evs| ==> !evs[i].Remove?
    requires Picks(evs) <= p && p < |q|
    ensures !IsPicked(q, evs, e)
    decreases |evs|
  {
    if evs != [] {
      match evs[0]
      case Add(x) =>
        assert (q + [x])[..p] == q[..p];
        NotPickedEarlier(q + [x], e, p, evs[1..]);
      case Pick =>
        assert q[0] in q[..p];
        var r := q[1..] + [q[0]];
        assert r[..p - 1] == q[1..p];
        NotPickedEarlier(r, e, p - 1, evs[1..]);
    }
  }

  /** The entities a run picks, in order. */
  function PickedBy(q: seq<Entity>, evs: seq<Event>): seq<Entity>
    decreases |evs|
  {
    if evs == [] then []
    else
      var r := PickedBy(AfterEvent(q, evs[0]), evs[1..]);
      match Picked(q, evs[0]) case None => r case Some(e) => [e] + r
  }

  lemma {:induction false} PickedByExact(q: seq<Entity>, evs: seq<Event>, e: Entity)
    ensures e in PickedBy(q, evs) <==> IsPicked(q, evs, e)
    decreases |evs|
  {
    if evs != [] {
      PickedByExact(AfterEvent(q, evs[0]), evs[1..], e);
    }
  }

  /** Entity e is at position p of the queue, is not removed, and the run picks more than p times. */
  ghost predicate Due(q: seq<Entity>, evs: seq<Event>, e: Entity, p: nat) {
    p < |q| && q[p] == e && Picks(evs) >= p + 1 && forall i :: 0 <= i < |evs| ==> evs[i] != Remove(e)
  }

  lemma DueIsPicked(q: seq<Entity>, evs: seq<Event>)
    ensures forall e, p: nat :: Due(q, evs, e, p) ==> e in PickedBy(q, evs)
  {
    forall e, p: nat | Due(q, evs, e, p)
      ensures e in PickedBy(q, evs)
    {
      BoundedWaiting(q, e, p, evs);
      PickedByExact(q, evs, e);
    }
  }

  /** A run on the linked ring picks everybody who has waited long enough. */
  method RunFairly(rr: RoundRobinScheduler, evs: seq<Event>) returns (picked: seq<Entity>)
    requires rr.Valid()
    modifies rr.queue, rr.queue.nodes
    ensures rr.Valid() && picked == PickedBy(old(rr.Queue()), evs)
    ensures forall e, p: nat :: Due(old(rr.Queue()), evs, e, p) ==> e in picked
  {
    DueIsPicked(rr.Queue(), evs);
    picked := Run(rr, evs);
  }

  /** A whole run on the linked ring picks what the run on the sequence picks. */
  method Run(rr: RoundRobinScheduler, evs: seq<Event>) returns (picked: seq<Entity>)
    requires rr.Valid()
    modifies rr.queue, rr.queue.nodes
    ensures rr.Valid() && picked == PickedBy(old(rr.Queue()), evs)
    ensures forall n :: n in rr.queue.nodes ==> n in old(rr.queue.nodes) || fresh(n)
    decreases |evs|
  {
    hide Without, RoundRobinScheduler.Valid;
    if evs == [] {
      return [];
    }
    var first := None;
    match evs[0] {
      case Add(e) => rr.AddToRunqueue(e);
      case Remove(e) => rr.RemoveFromRunqueue(e);
      case Pick => first := rr.PickNextEntity();
    }
    assert forall i :: 0 <= i < |rr.queue.nodes| ==> rr.queue.nodes[i] in rr.queue.nodes;
    var rest := Run(rr, evs[1..]);
    picked := if first.Some? then [first.value] + rest else rest;
  }
}
