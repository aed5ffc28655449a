/** The path of work-group ranges under AlgoSimple: route_ndrange carves and submits them
    (cpp/algo_simple.cc), each scheduler queues its ranges and retires one per timer tick
    (cpp/scheduler_emu.cc), and the manager tracks the idle schedulers (cpp/free_sched_mgr.cc).
    Every method of Layer is one callback of the event loop. */
module Scheduling {
  import opened NDRanges
  import opened AlgoSimple
  import opened Basics

  const QUEUE_CAPACITY: nat := 100

  // ---------- Counting queued ranges ----------

  ghost function Count(q: seq<WorkGroupRange>, nd: NDRange): nat {
    if q == [] then 0 else (if q[0].parent == nd then 1 else 0) + Count(q[1..], nd)
  }

  ghost function InFlight(qs: seq<seq<WorkGroupRange>>, nd: NDRange): nat {
    if qs == [] then 0 else Count(qs[0], nd) + InFlight(qs[1..], nd)
  }

  ghost function Backlog(qs: seq<seq<WorkGroupRange>>): nat {
    if qs == [] then 0 else |qs[0]| + Backlog(qs[1..])
  }

  lemma {:induction false} CountSnoc(q: seq<WorkGroupRange>, w: WorkGroupRange, nd: NDRange)
    ensures Count(q + [w], nd) == Count(q, nd) + if w.parent == nd then 1 else 0
  {
    if q == [] {
      assert q + [w] == [w];
    } else {
      assert (q + [w])[1..] == q[1..] + [w];
      CountSnoc(q[1..], w, nd);
    }
  }

  lemma {:induction false} CountPositive(q: seq<WorkGroupRange>, nd: NDRange)
    ensures Count(q, nd) > 0 <==> exists p :: 0 <= p < |q| && q[p].parent == nd
  {
    if q != [] {
      CountPositive(q[1..], nd);
      if q[0].parent != nd && (exists p :: 0 <= p < |q| && q[p].parent == nd) {
        var p :| 0 <= p < |q| && q[p].parent == nd;
        assert q[1..][p - 1].parent == nd;
      }
      if q[0].parent != nd && (exists p :: 0 <= p < |q[1..]| && q[1..][p].parent == nd) {
        var p :| 0 <= p < |q[1..]| && q[1..][p].parent == nd;
        assert q[p + 1].parent == nd;
      }
    }
  }

  lemma {:induction false} InFlightUpdate(qs: seq<seq<WorkGroupRange>>, i: nat, q: seq<WorkGroupRange>, nd: NDRange)
    requires i < |qs|
    ensures InFlight(qs[i := q], nd) == InFlight(qs, nd) - Count(qs[i], nd) + Count(q, nd)
    ensures Count(qs[i], nd) <= InFlight(qs, nd)
    ensures Backlog(qs[i := q]) == Backlog(qs) - |qs[i]| + |q|
  {
    if i == 0 {
      assert qs[i := q][1..] == qs[1..];
    } else {
      assert qs[i := q][1..] == qs[1..][i - 1 := q];
      InFlightUpdate(qs[1..], i - 1, q, nd);
    }
  }

  lemma {:induction false} InFlightPositive(qs: seq<seq<WorkGroupRange>>, nd: NDRange)
    ensures InFlight(qs, nd) > 0 <==> exists i, p :: 0 <= i < |qs| && 0 <= p < |qs[i]| && qs[i][p].parent == nd
  {
    if qs != [] {
      CountPositive(qs[0], nd);
      InFlightPositive(qs[1..], nd);
      if i, p :| 0 <= i < |qs| && 0 <= p < |qs[i]| && qs[i][p].parent == nd {
        if i > 0 {
          assert qs[1..][i - 1][p].parent == nd;
        }
      }
      if i, p :| 0 <= i < |qs[1..]| && 0 <= p < |qs[1..][i]| && qs[1..][i][p].parent == nd {
        assert qs[i + 1][p].parent == nd;
      }
    }
  }

  // ---------- Distinct ids ----------

  ghost function Elements(s: seq<nat>): set<nat> {
    set x | x in s
  }

  lemma {:induction false} DistinctCardinality(s: seq<nat>)
    requires Distinct(s)
    ensures |Elements(s)| == |s|
  {
    if s != [] {
      var t := s[1..];
      forall i, j | 0 <= i < j < |t|
        ensures t[i] != t[j]
      {
        assert t[i] == s[i + 1] && t[j] == s[j + 1];
      }
      DistinctCardinality(t);
      assert s == [s[0]] + t;
      assert Elements(s) == {s[0]} + Elements(t);
      assert s[0] !in t;
    }
  }

  /** Distinct ids of which one is missing leave room for it. */
  lemma MissingIdHasRoom(free: seq<nat>, ids: seq<nat>, id: nat)
    requires Distinct(free) && Distinct(ids) && id in ids && id !in free
    requires forall x :: x in free ==> x in ids
    ensures |free| < |ids|
  {
    DistinctCardinality(free);
    DistinctCardinality(ids);
    DistinctSubset(Elements(free) + {id}, Elements(ids));
    assert |Elements(free) + {id}| == |free| + 1;
  }

  lemma {:induction false} DistinctSubset(a: set<nat>, b: set<nat>)
    requires a <= b
    ensures |a| <= |b|
  {
    if x :| x in a {
      DistinctSubset(a - {x}, b - {x});
    }
  }

  // ---------- The objects ----------

  class FreeSchedulersManager {
    const capacity: nat
    var freeSchedulers: seq<nat>
    var timerActive: bool

    /** The timer that offers the idle schedulers runs exactly while there are some. */
    ghost predicate Valid()
      reads this
    {
      Distinct(freeSchedulers) && timerActive == (freeSchedulers != [])
    }

    constructor (freeScSize: nat)
      ensures Valid() && freeSchedulers == [] && capacity == freeScSize
    {
      capacity := freeScSize;
      freeSchedulers := [];
      timerActive := false;
    }

    /** The first requirement is the assert that opens add_free_scheduler. */
    method AddFreeScheduler(id: nat)
      requires |freeSchedulers| < capacity
      requires Valid() && id !in freeSchedulers
      modifies this
      ensures Valid() && freeSchedulers == old(freeSchedulers) + [id]
    {
      freeSchedulers := freeSchedulers + [id];
      if !timerActive {
        timerActive := true;
      }
    }

    method RemoveFreeScheduler(id: nat)
      requires Valid()
      modifies this
      ensures Valid() && freeSchedulers == WithoutFirst(old(freeSchedulers), id)
      ensures id !in freeSchedulers
      ensures forall x :: x != id ==> (x in freeSchedulers <==> x in old(freeSchedulers))
    {
      var i := 0;
      while i < |freeSchedulers|
        invariant 0 <= i <= |freeSchedulers|
        invariant freeSchedulers == old(freeSchedulers) && timerActive == old(timerActive)
        invariant forall j :: 0 <= j < i ==> freeSchedulers[j] != id
      {
        if freeSchedulers[i] == id {
          Removed(freeSchedulers, i);
          WithoutFirstAt(freeSchedulers, i, id);
          freeSchedulers := freeSchedulers[..i] + freeSchedulers[i + 1..];
          break;
        }
        i := i + 1;
      }
      WithoutFirstAt(old(freeSchedulers), |old(freeSchedulers)|, id);
      if freeSchedulers == [] {
        timerActive := false;
      }
    }
  }

  /** s without the first occurrence of id. */
  ghost function WithoutFirst(s: seq<nat>, id: nat): seq<nat> {
    if s == [] then [] else if s[0] == id then s[1..] else [s[0]] + WithoutFirst(s[1..], id)
  }

  lemma {:induction false} WithoutFirstAt(s: seq<nat>, i: nat, id: nat)
    requires i <= |s|
    ensures (forall j :: 0 <= j < i ==> s[j] != id) && (i < |s| ==> s[i] == id) ==>
              WithoutFirst(s, id) == if i < |s| then s[..i] + s[i + 1..] else s
  {
    if i > 0 {
      WithoutFirstAt(s[1..], i - 1, id);
      if (forall j :: 0 <= j < i ==> s[j] != id) && (i < |s| ==> s[i] == id) {
        assert forall j :: 0 <= j < i - 1 ==> s[1..][j] == s[j + 1];
        assert i < |s| ==> s[..i] + s[i + 1..] == [s[0]] + (s[1..][..i - 1] + s[1..][i..]);
        assert s == [s[0]] + s[1..];
      }
    }
  }

  lemma Removed(s: seq<nat>, i: nat)
    requires i < |s| && Distinct(s)
    ensures var t := s[..i] + s[i + 1..];
            Distinct(t) && s[i] !in t && forall x :: x != s[i] ==> (x in t <==> x in s)
  {
    var t := s[..i] + s[i + 1..];
    assert forall j :: 0 <= j < |t| ==> t[j] == s[if j < i then j else j + 1];
    forall x | x != s[i] && x in s
      ensures x in t
    {
      var j :| 0 <= j < |s| && s[j] == x;
      assert t[if j < i then j else j - 1] == x;
    }
  }

  class Scheduler {
    const id: nat
    var inQueue: seq<WorkGroupRange>
    var timerActive: bool

    /** The timer runs exactly while there is a range to retire. */
    ghost predicate Valid()
      reads this
    {
      timerActive == (inQueue != []) && |inQueue| <= QUEUE_CAPACITY
    }

    constructor (id: nat)
      ensures Valid() && this.id == id && inQueue == []
    {
      this.id := id;
      inQueue := [];
      timerActive := false;
    }

    /** A range submitted to a full queue is dropped without notice. */
    method SubmitWgr(wgr: WorkGroupRange, manager: FreeSchedulersManager)
      requires Valid() && manager.Valid()
      modifies this, manager
      ensures Valid() && manager.Valid()
      ensures inQueue == Enqueued(old(inQueue), wgr)
      ensures manager.freeSchedulers == WithoutFirst(old(manager.freeSchedulers), id)
      ensures id !in manager.freeSchedulers
      ensures forall x :: x != id ==> (x in manager.freeSchedulers <==> x in old(manager.freeSchedulers))
    {
      if |inQueue| < QUEUE_CAPACITY {
        inQueue := inQueue + [wgr];
      }
      if !timerActive && |inQueue| < 2 {
        timerActive := true;
      }
      manager.RemoveFreeScheduler(id);
    }

    /** The timer does not repeat: it is no longer active when its callback runs. */
    method OnTimer(manager: FreeSchedulersManager) returns (wgr: WorkGroupRange)
      requires Valid() && timerActive && manager.Valid()
      requires !inQueue[0].parent.destroyed && inQueue[0].parent.wgrsInTheWild > 0
      requires id !in manager.freeSchedulers && |manager.freeSchedulers| < manager.capacity
      modifies this, manager, inQueue[0].parent`wgrsInTheWild, inQueue[0].parent`destroyed, inQueue[0].parent.event
      ensures wgr == old(inQueue[0]) && inQueue == old(inQueue[1..])
      ensures Valid() && manager.Valid()
      ensures manager.freeSchedulers == old(manager.freeSchedulers) + if inQueue == [] then [id] else []
      ensures wgr.parent.wgrsInTheWild == old(inQueue[0].parent.wgrsInTheWild) - 1
      ensures wgr.parent.destroyed == (wgr.parent.wgrsInTheWild == 0)
      ensures wgr.parent.event.completions == old(inQueue[0].parent.event.completions) +
              if wgr.parent.destroyed then 1 else 0
      ensures wgr.parent.event.state == if wgr.parent.destroyed then Complete else old(inQueue[0].parent.event.state)
    {
      timerActive := false;
      wgr := inQueue[0];
      inQueue := inQueue[1..];
      wgr.parent.DecrementWgrsCounter();
      if inQueue == [] {
        manager.AddFreeScheduler(id);
      } else {
        timerActive := true;
      }
    }
  }

  ghost function Enqueued(q: seq<WorkGroupRange>, wgr: WorkGroupRange): seq<WorkGroupRange> {
    if |q| < QUEUE_CAPACITY then q + [wgr] else q
  }

  /** The queue after a run of submissions. */
  ghost function EnqueuedAll(q: seq<WorkGroupRange>, ws: seq<WorkGroupRange>): seq<WorkGroupRange>
    decreases |ws|
  {
    if ws == [] then q else EnqueuedAll(Enqueued(q, ws[0]), ws[1..])
  }

  /** Ranges queue up in the order in which they are submitted, as far as there is room; none that was
      queued before is lost, and those that find no room leave no trace. */
  lemma {:induction false} QueuedInOrder(q: seq<WorkGroupRange>, ws: seq<WorkGroupRange>)
    requires |q| <= QUEUE_CAPACITY
    ensures var all := q + ws; EnqueuedAll(q, ws) == if |all| <= QUEUE_CAPACITY then all else all[..QUEUE_CAPACITY]
    decreases |ws|
  {
    if ws == [] {
      assert q + ws == q;
    } else {
      QueuedInOrder(Enqueued(q, ws[0]), ws[1..]);
      if |q| < QUEUE_CAPACITY {
        assert q + [ws[0]] + ws[1..] == q + ws;
      } else {
        assert (q + ws[1..])[..QUEUE_CAPACITY] == q == (q + ws)[..QUEUE_CAPACITY];
      }
    }
  }

  /** w is what island i gets of nd when the distribution d is carved from the first island on. */
  ghost predicate IsShare(w: WorkGroupRange, nd: NDRange, d: seq<int>, costs: Costs, i: nat)
    requires i < |d| && CostsFor(costs, |d|)
  {
    w.parent == nd && w.start == nd.totalSize - Placed(d, i) && w.end == nd.totalSize - Placed(d, i + 1) &&
    w.end - w.start == d[i] && w.executionCost == d[i] * costs.perWorkGroup[i] + costs.reconf[i]
  }

  ghost function Ids(schedulers: seq<Scheduler>): (ids: seq<nat>)
    ensures |ids| == |schedulers| && forall i :: 0 <= i < |ids| ==> ids[i] == schedulers[i].id
  {
    seq(|schedulers|, i requires 0 <= i < |schedulers| => schedulers[i].id)
  }

  ghost function QueuesOf(schedulers: seq<Scheduler>): (qs: seq<seq<WorkGroupRange>>)
    reads schedulers
    ensures |qs| == |schedulers| && forall i :: 0 <= i < |qs| ==> qs[i] == schedulers[i].inQueue
  {
    if schedulers == [] then [] else [schedulers[0].inQueue] + QueuesOf(schedulers[1..])
  }

  ghost function TimersOf(schedulers: seq<Scheduler>): (ts: seq<bool>)
    reads schedulers
    ensures |ts| == |schedulers| && forall i :: 0 <= i < |ts| ==> ts[i] == schedulers[i].timerActive
  {
    if schedulers == [] then [] else [schedulers[0].timerActive] + TimersOf(schedulers[1..])
  }

  /** A scheduler's timer runs exactly while its queue is not empty, that is exactly while its id is
      not among the idle ones; no id is idle twice. */
  ghost predicate IdleExact(ids: seq<nat>, timers: seq<bool>, qs: seq<seq<WorkGroupRange>>, free: seq<nat>) {
    |ids| == |timers| == |qs| && Distinct(ids) && Distinct(free) && (forall x :: x in free ==> x in ids) &&
    forall i :: 0 <= i < |ids| ==>
      (timers[i] <==> qs[i] != []) && (qs[i] == [] <==> ids[i] in free) && |qs[i]| <= QUEUE_CAPACITY
  }

  /** A tick of scheduler i keeps this, and finds room for the id when it adds it. */
  lemma TickKeepsIdle(ids: seq<nat>, timers: seq<bool>, qs: seq<seq<WorkGroupRange>>, free: seq<nat>, i: nat)
    requires IdleExact(ids, timers, qs, free) && i < |ids| && timers[i]
    ensures ids[i] !in free && |free| < |ids|
    ensures var q := qs[i][1..];
            IdleExact(ids, timers[i := q != []], qs[i := q], free + if q == [] then [ids[i]] else [])
  {
    MissingIdHasRoom(free, ids, ids[i]);
  }

  /** So does a submission, whether the queue has room or not. */
  lemma SubmitKeepsIdle(ids: seq<nat>, timers: seq<bool>, qs: seq<seq<WorkGroupRange>>, free: seq<nat>,
                        i: nat, w: WorkGroupRange, free': seq<nat>)
    requires IdleExact(ids, timers, qs, free) && i < |ids|
    requires Distinct(free') && ids[i] !in free' && forall x :: x != ids[i] ==> (x in free' <==> x in free)
    ensures IdleExact(ids, timers[i := true], qs[i := Enqueued(qs[i], w)], free')
  {
    forall j | 0 <= j < |ids| && j != i
      ensures ids[j] != ids[i]
    {
    }
  }

  lemma NotBefore(ids: seq<nat>, i: nat)
    requires Distinct(ids) && i < |ids|
    ensures ids[i] !in ids[..i] && ids[..i] + [ids[i]] == ids[..i + 1]
  {
  }

  lemma AllIdle(ids: seq<nat>, timers: seq<bool>, qs: seq<seq<WorkGroupRange>>)
    requires |ids| == |timers| == |qs| && Distinct(ids)
    requires forall i :: 0 <= i < |ids| ==> !timers[i] && qs[i] == []
    ensures IdleExact(ids, timers, qs, ids)
  {
  }

  lemma IdleExactAt(ids: seq<nat>, timers: seq<bool>, qs: seq<seq<WorkGroupRange>>, free: seq<nat>, i: nat)
    requires IdleExact(ids, timers, qs, free) && i < |ids|
    ensures |ids| == |timers| == |qs| && (timers[i] <==> qs[i] != []) && (qs[i] == [] <==> ids[i] in free) &&
            |qs[i]| <= QUEUE_CAPACITY
  {
  }

  /** A submission of a range of nd adds one to what nd has to count, and nothing to what others do. */
  lemma SubmitCounts(qs: seq<seq<WorkGroupRange>>, i: nat, w: WorkGroupRange, md: NDRange)
    requires i < |qs|
    ensures var room := |qs[i]| < QUEUE_CAPACITY;
            InFlight(qs[i := Enqueued(qs[i], w)], md) == InFlight(qs, md) + if room && w.parent == md then 1 else 0
  {
    InFlightUpdate(qs, i, Enqueued(qs[i], w), md);
    CountSnoc(qs[i], w, md);
  }

  lemma SubmitParents(qs: seq<seq<WorkGroupRange>>, i: nat, w: WorkGroupRange, parents: set<NDRange>)
    requires i < |qs| && ParentsIn(qs, parents) && w.parent in parents
    ensures ParentsIn(qs[i := Enqueued(qs[i], w)], parents)
  {
  }

  lemma NoneInFlight(qs: seq<seq<WorkGroupRange>>, nd: NDRange, parents: set<NDRange>)
    requires ParentsIn(qs, parents) && nd !in parents
    ensures InFlight(qs, nd) == 0
  {
    InFlightPositive(qs, nd);
  }

  lemma PlacedAll(d: seq<int>, n: nat, v: seq<int>)
    requires IsDistribution(d, n, v, 0)
    ensures |d| == |v| && Placed(d, 0) == n && Placed(d, |d|) == 0
  {
  }

  /** One step along a distribution. */
  lemma PlacedStep(d: seq<int>, n: nat, v: seq<int>, i: nat)
    requires IsDistribution(d, n, v, 0) && i < |v|
    ensures v[i] == UNSUITABLE_ISLAND ==> d[i] == UNSUITABLE_ISLAND
    ensures v[i] != UNSUITABLE_ISLAND ==> d[i] >= 0
    ensures Placed(d, i) == Placed(d, i + 1) + (if d[i] > 0 then d[i] else 0) && Placed(d, i + 1) >= 0
  {
    PlacedIsNotNegative(d, v, i + 1);
  }

  /** nd counts its ranges that are queued or were dropped; it lives, and its event is not complete,
      exactly while there are some. */
  ghost predicate Accounted(nd: NDRange, qs: seq<seq<WorkGroupRange>>, dropped: nat)
    reads nd, nd.event
  {
    nd.wgrsInTheWild == InFlight(qs, nd) + dropped &&
    nd.destroyed == (nd.wgrsInTheWild == 0) &&
    nd.event.completions == (if nd.destroyed then 1 else 0) &&
    (nd.event.state == Complete <==> nd.destroyed)
  }

  ghost predicate ParentsIn(qs: seq<seq<WorkGroupRange>>, parents: set<NDRange>) {
    forall i, p :: 0 <= i < |qs| && 0 <= p < |qs[i]| ==> qs[i][p].parent in parents
  }

  /** How many of the first k islands are given work by d but have no room for it in their queue. */
  ghost function Drops(d: seq<int>, qs: seq<seq<WorkGroupRange>>, k: nat): nat {
    if k == 0 then 0
    else Drops(d, qs, k - 1) + if k <= |d| && k <= |qs| && d[k - 1] > 0 && |qs[k - 1]| >= QUEUE_CAPACITY then 1 else 0
  }

  /** None is dropped exactly when every island given work has room for one range more. */
  lemma {:induction false} DropsNothing(d: seq<int>, qs: seq<seq<WorkGroupRange>>, k: nat)
    requires k <= |d| && k <= |qs|
    ensures Drops(d, qs, k) == 0 <==> forall i :: 0 <= i < k && d[i] > 0 ==> |qs[i]| < QUEUE_CAPACITY
  {
    if k > 0 {
      DropsNothing(d, qs, k - 1);
    }
  }

  /** The distribution an NDRange was routed by, and what was queued when that began. */
  datatype RoutedAs = RoutedAs(distribution: seq<int>, queues: seq<seq<WorkGroupRange>>)

  ghost function Dropped(r: RoutedAs): nat {
    Drops(r.distribution, r.queues, |r.distribution|)
  }

  /** Every island given work had room for its share. */
  ghost predicate HadRoom(r: RoutedAs) {
    |r.distribution| == |r.queues| &&
    forall i :: 0 <= i < |r.queues| && r.distribution[i] > 0 ==> |r.queues[i]| < QUEUE_CAPACITY
  }

  /** What decides, before it is routed, whether an NDRange of n work-groups will finish: there is a
      suitable island, and the distribution that the search will find, of which there is only one,
      meets no full queue. */
  ghost predicate WillFinish(n: nat, suitable: seq<bool>, remaining: seq<nat>, reconf: seq<nat>,
                             perWorkGroup: seq<nat>, queues: seq<seq<WorkGroupRange>>)
    requires |suitable| == |remaining| == |reconf| == |perWorkGroup|
  {
    (exists i :: 0 <= i < |suitable| && suitable[i]) &&
    forall d :: Optimal(d, n, Marked(suitable), CostsAt(suitable, remaining, reconf, perWorkGroup)) ==>
      HadRoom(RoutedAs(d, queues))
  }

  lemma WillFinishIff(d: seq<int>, n: nat, suitable: seq<bool>, remaining: seq<nat>, reconf: seq<nat>,
                      perWorkGroup: seq<nat>, queues: seq<seq<WorkGroupRange>>)
    requires |suitable| == |remaining| == |reconf| == |perWorkGroup| && exists i :: 0 <= i < |suitable| && suitable[i]
    requires Optimal(d, n, Marked(suitable), CostsAt(suitable, remaining, reconf, perWorkGroup))
    ensures WillFinish(n, suitable, remaining, reconf, perWorkGroup, queues) <==> HadRoom(RoutedAs(d, queues))
  {
    hide Optimal, HadRoom, CostsAt, Marked;
    var v, costs := Marked(suitable), CostsAt(suitable, remaining, reconf, perWorkGroup);
    forall e | Optimal(e, n, v, costs)
      ensures e == d
    {
      OptimalIsUnique(d, e, n, v, costs);
    }
  }

  // ---------- When the ranges are done ----------

  /** A range without its NDRange. */
  datatype Priced = Priced(start: nat, end: nat, cost: nat)

  ghost function PricedRanges(ws: seq<WorkGroupRange>): (ps: seq<Priced>)
    ensures |ps| == |ws|
    ensures forall i :: 0 <= i < |ps| ==> ps[i] == Priced(ws[i].start, ws[i].end, ws[i].executionCost)
  {
    seq(|ws|, i requires 0 <= i < |ws| => Priced(ws[i].start, ws[i].end, ws[i].executionCost))
  }

  /** How many work-groups the ranges from i on hold. */
  ghost function Held(ws: seq<Priced>, i: nat): int
    requires i <= |ws|
    decreases |ws| - i
  {
    if i == |ws| then 0 else ws[i].end - ws[i].start + Held(ws, i + 1)
  }

  /** One range for each island, empty where the island is not suitable, n work-groups in all; each
      costs its work-groups and the reconfiguration of its island. */
  ghost predicate IsPlan(ws: seq<Priced>, n: nat, suitable: seq<bool>, reconf: seq<nat>, perWorkGroup: seq<nat>) {
    |ws| == |suitable| == |reconf| == |perWorkGroup| && Held(ws, 0) == n &&
    forall i :: 0 <= i < |ws| ==>
      ws[i].start <= ws[i].end && (!suitable[i] ==> ws[i].start == ws[i].end) &&
      (ws[i].start < ws[i].end ==> ws[i].cost == (ws[i].end - ws[i].start) * perWorkGroup[i] + reconf[i])
  }

  /** All ranges are done by m, each behind what remains to be done on its island. */
  ghost predicate DoneBy(m: int, ws: seq<Priced>, remaining: seq<nat>) {
    |ws| == |remaining| &&
    forall i :: 0 <= i < |ws| && ws[i].start < ws[i].end ==> remaining[i] + ws[i].cost <= m
  }

  /** The first island on which the two differ is given more by ws. */
  ghost predicate FillsFirst(ws: seq<Priced>, others: seq<Priced>) {
    |ws| == |others| &&
    ((forall j :: 0 <= j < |ws| ==> SameSize(ws, others, j)) ||
     exists k :: 0 <= k < |ws| && ws[k].end - ws[k].start > others[k].end - others[k].start &&
       forall j :: 0 <= j < k ==> SameSize(ws, others, j))
  }

  ghost predicate SameSize(ws: seq<Priced>, others: seq<Priced>, j: nat)
    requires j < |ws| == |others|
  {
    ws[j].end - ws[j].start == others[j].end - others[j].start
  }

  /** The ranges are a plan for all the work, the last of them is done at m, and no plan is done sooner;
      of those done as soon, it is the one that gives the first islands most. */
  ghost predicate DoneSoonest(m: int, ws: seq<Priced>, n: nat, suitable: seq<bool>, remaining: seq<nat>,
                              reconf: seq<nat>, perWorkGroup: seq<nat>) {
    IsPlan(ws, n, suitable, reconf, perWorkGroup) && DoneBy(m, ws, remaining) &&
    (exists i :: 0 <= i < |ws| && ws[i].start < ws[i].end && remaining[i] + ws[i].cost == m) &&
    (forall others, m' :: IsPlan(others, n, suitable, reconf, perWorkGroup) && DoneBy(m', others, remaining) ==>
      m <= m') &&
    forall others :: IsPlan(others, n, suitable, reconf, perWorkGroup) && DoneBy(m, others, remaining) ==>
      FillsFirst(ws, others)
  }

  /** The ranges follow each other without a gap: each work-group is in exactly one of them. */
  ghost predicate Tiles(ws: seq<Priced>, n: nat) {
    forall g :: 0 <= g < n ==> InOne(ws, g)
  }

  ghost predicate InOne(ws: seq<Priced>, g: int) {
    exists i :: HoldsOnly(ws, i, g)
  }

  ghost predicate HoldsOnly(ws: seq<Priced>, i: int, g: int) {
    0 <= i < |ws| && ws[i].start <= g < ws[i].end &&
    forall j :: 0 <= j < |ws| && ws[j].start <= g < ws[j].end ==> j == i
  }

  lemma {:induction false} PlacedFalls(d: seq<int>, n: nat, v: seq<int>, i: nat, j: nat)
    requires IsDistribution(d, n, v, 0) && i <= j <= |d|
    ensures 0 <= Placed(d, j) <= Placed(d, i)
    decreases j - i
  {
    hide IsDistribution;
    if i < j {
      SameLength(d, n, v);
      PlacedStep(d, n, v, i);
      PlacedFalls(d, n, v, i + 1, j);
    } else {
      PlacedAtEnd(d, n, v, j);
    }
  }

  lemma PlacedAtEnd(d: seq<int>, n: nat, v: seq<int>, j: nat)
    requires IsDistribution(d, n, v, 0) && j <= |d|
    ensures Placed(d, j) >= 0
  {
    PlacedIsNotNegative(d, v, j);
  }

  /** The island whose share holds work-group g. */
  lemma {:induction false} Holder(d: seq<int>, n: nat, v: seq<int>, g: int, i: nat) returns (k: nat)
    requires IsDistribution(d, n, v, 0) && i <= |d| && n - Placed(d, i) <= g < n
    ensures i <= k < |d| && n - Placed(d, k) <= g < n - Placed(d, k + 1) && d[k] > 0
    decreases |d| - i
  {
    hide IsDistribution;
    PlacedAll(d, n, v);
    PlacedStep(d, n, v, i);
    if g < n - Placed(d, i + 1) {
      k := i;
    } else {
      k := Holder(d, n, v, g, i + 1);
    }
  }

  ghost predicate ShareAt(ws: seq<Priced>, d: seq<int>, n: nat, i: nat)
    requires i < |ws| == |d|
  {
    if d[i] > 0 then ws[i].start == n - Placed(d, i) && ws[i].end == n - Placed(d, i + 1) else ws[i].start == ws[i].end
  }

  /** The shares of a distribution tile the NDRange. */
  lemma SharesTile(ws: seq<Priced>, d: seq<int>, n: nat, v: seq<int>)
    requires IsDistribution(d, n, v, 0) && |ws| == |d|
    requires forall i :: 0 <= i < |d| ==> ShareAt(ws, d, n, i)
    ensures Tiles(ws, n)
  {
    hide IsDistribution, Placed;
    forall g | 0 <= g < n
      ensures InOne(ws, g)
    {
      PlacedAll(d, n, v);
      var k := Holder(d, n, v, g, 0);
      assert ShareAt(ws, d, n, k);
      forall j | 0 <= j < |ws| && ws[j].start <= g < ws[j].end
        ensures j == k
      {
        assert ShareAt(ws, d, n, j);
        if j < k {
          PlacedFalls(d, n, v, j + 1, k);
        } else if k < j {
          PlacedFalls(d, n, v, k + 1, j);
        }
      }
      assert HoldsOnly(ws, k, g);
    }
  }

  /** The distribution that a plan follows. */
  ghost function Sizes(ws: seq<Priced>, suitable: seq<bool>): (d: seq<int>)
    requires |ws| == |suitable|
    ensures |d| == |ws|
    ensures forall i :: 0 <= i < |d| ==> d[i] == if suitable[i] then ws[i].end - ws[i].start else UNSUITABLE_ISLAND
  {
    seq(|ws|, i requires 0 <= i < |ws| => if suitable[i] then ws[i].end - ws[i].start else UNSUITABLE_ISLAND)
  }

  lemma {:induction false} HeldIsPlaced(ws: seq<Priced>, suitable: seq<bool>, d: seq<int>, i: nat)
    requires |ws| == |suitable| == |d| && i <= |ws|
    requires forall j :: 0 <= j < |d| ==>
               if suitable[j] then d[j] == ws[j].end - ws[j].start >= 0
               else ws[j].start == ws[j].end && d[j] == UNSUITABLE_ISLAND
    ensures Held(ws, i) == Placed(d, i)
    decreases |ws| - i
  {
    if i < |ws| {
      HeldIsPlaced(ws, suitable, d, i + 1);
    }
  }

  lemma PlanDistributes(ws: seq<Priced>, n: nat, suitable: seq<bool>, reconf: seq<nat>, perWorkGroup: seq<nat>)
    requires IsPlan(ws, n, suitable, reconf, perWorkGroup)
    ensures IsDistribution(Sizes(ws, suitable), n, Marked(suitable), 0)
  {
    HeldIsPlaced(ws, suitable, Sizes(ws, suitable), 0);
  }

  /** What makes the makespan of a distribution is the range that is done last. */
  lemma PlanDone(ws: seq<Priced>, m: int, n: nat, suitable: seq<bool>, remaining: seq<nat>, reconf: seq<nat>,
                 perWorkGroup: seq<nat>)
    requires IsPlan(ws, n, suitable, reconf, perWorkGroup) && |remaining| == |suitable| && n >= 1
    ensures var d, costs := Sizes(ws, suitable), CostsAt(suitable, remaining, reconf, perWorkGroup);
      DoneBy(m, ws, remaining) <==> Makespan(d, costs, |d|) <= m
  {
    hide Makespan;
    var d, costs := Sizes(ws, suitable), CostsAt(suitable, remaining, reconf, perWorkGroup);
    var last := Makespan(d, costs, |d|);
    var k := SomeHeld(ws, 0);
    assert IslandCost(d, costs, k) == remaining[k] + ws[k].cost >= 0;
    forall i | 0 <= i < |ws| && d[i] > 0
      ensures IslandCost(d, costs, i) == remaining[i] + ws[i].cost
    {
    }
  }

  lemma {:induction false} SomeHeld(ws: seq<Priced>, i: nat) returns (k: nat)
    requires i <= |ws| && Held(ws, i) > 0
    ensures i <= k < |ws| && ws[k].start < ws[k].end
    decreases |ws| - i
  {
    if ws[i].start < ws[i].end {
      k := i;
    } else {
      k := SomeHeld(ws, i + 1);
    }
  }

  lemma SharesArePlan(d: seq<int>, m: int, shares: seq<Priced>, n: nat, suitable: seq<bool>,
                      remaining: seq<nat>, reconf: seq<nat>, perWorkGroup: seq<nat>)
    requires |suitable| == |remaining| == |reconf| == |perWorkGroup| == |d| == |shares| && n >= 1
    requires IsDistribution(d, n, Marked(suitable), 0)
    requires IsMakespan(m, d, CostsAt(suitable, remaining, reconf, perWorkGroup))
    requires forall i :: 0 <= i < |d| && d[i] > 0 ==>
               shares[i].end - shares[i].start == d[i] && shares[i].cost == d[i] * perWorkGroup[i] + reconf[i]
    requires forall i :: 0 <= i < |d| && d[i] <= 0 ==> shares[i].start == shares[i].end
    ensures IsPlan(shares, n, suitable, reconf, perWorkGroup) && Sizes(shares, suitable) == d
    ensures DoneBy(m, shares, remaining)
    ensures exists i :: 0 <= i < |shares| && shares[i].start < shares[i].end && remaining[i] + shares[i].cost == m
  {
    hide Makespan;
    var costs := CostsAt(suitable, remaining, reconf, perWorkGroup);
    HeldIsPlaced(shares, suitable, d, 0);
    assert Sizes(shares, suitable) == d;
    MakespanIsUnique(m, Makespan(d, costs, |d|), d, costs);
    hide IsMakespan, CostsAt, IsDistribution;
    PlanDone(shares, m, n, suitable, remaining, reconf, perWorkGroup);
    PlanDone(shares, m - 1, n, suitable, remaining, reconf, perWorkGroup);
  }

  /** No plan is done sooner than the distribution found; of those done as soon, none gives the first
      islands more. */
  lemma NoneSooner(d: seq<int>, m: int, shares: seq<Priced>, others: seq<Priced>, m': int, n: nat, suitable: seq<bool>,
                   remaining: seq<nat>, reconf: seq<nat>, perWorkGroup: seq<nat>)
    requires |suitable| == |remaining| == |reconf| == |perWorkGroup| == |d| == |shares| && n >= 1
    requires Optimal(d, n, Marked(suitable), CostsAt(suitable, remaining, reconf, perWorkGroup))
    requires IsMakespan(m, d, CostsAt(suitable, remaining, reconf, perWorkGroup))
    requires IsPlan(shares, n, suitable, reconf, perWorkGroup) && Sizes(shares, suitable) == d
    requires IsPlan(others, n, suitable, reconf, perWorkGroup) && DoneBy(m', others, remaining)
    ensures m <= m' && (m' == m ==> FillsFirst(shares, others))
  {
    hide Makespan, IsMakespan, FillsFirst, IsDistribution, CostsAt, DoneBy;
    var costs, e := CostsAt(suitable, remaining, reconf, perWorkGroup), Sizes(others, suitable);
    MakespanIsUnique(m, Makespan(d, costs, |d|), d, costs);
    PlanDistributes(others, n, suitable, reconf, perWorkGroup);
    PlanDone(others, m', n, suitable, remaining, reconf, perWorkGroup);
    assert Preferred(d, e, costs);
    if m' == m {
      GreaterFills(shares, others, suitable, d, e);
    }
  }

  /** The shares of the distribution found are the plan that is done soonest, at the minimum found. */
  lemma SharesDoneSoonest(d: seq<int>, m: int, shares: seq<Priced>, n: nat, suitable: seq<bool>,
                          remaining: seq<nat>, reconf: seq<nat>, perWorkGroup: seq<nat>)
    requires |suitable| == |remaining| == |reconf| == |perWorkGroup| == |d| == |shares| && n >= 1
    requires Optimal(d, n, Marked(suitable), CostsAt(suitable, remaining, reconf, perWorkGroup))
    requires IsMakespan(m, d, CostsAt(suitable, remaining, reconf, perWorkGroup))
    requires forall i :: 0 <= i < |d| && d[i] > 0 ==>
               shares[i].end - shares[i].start == d[i] && shares[i].cost == d[i] * perWorkGroup[i] + reconf[i]
    requires forall i :: 0 <= i < |d| && d[i] <= 0 ==> shares[i].start == shares[i].end
    ensures DoneSoonest(m, shares, n, suitable, remaining, reconf, perWorkGroup)
  {
    hide FillsFirst, IsPlan, DoneBy, IsMakespan, IsDistribution, CostsAt, Optimal;
    OptimalDistributes(d, n, Marked(suitable), CostsAt(suitable, remaining, reconf, perWorkGroup));
    SharesArePlan(d, m, shares, n, suitable, remaining, reconf, perWorkGroup);
    forall others, m' | IsPlan(others, n, suitable, reconf, perWorkGroup) && DoneBy(m', others, remaining)
      ensures m <= m' && (m' == m ==> FillsFirst(shares, others))
    {
      NoneSooner(d, m, shares, others, m', n, suitable, remaining, reconf, perWorkGroup);
    }
  }

  lemma GreaterFills(ws: seq<Priced>, others: seq<Priced>, suitable: seq<bool>, d: seq<int>, e: seq<int>)
    requires |ws| == |others| == |suitable| && d == Sizes(ws, suitable) && e == Sizes(others, suitable)
    requires forall i :: 0 <= i < |ws| && !suitable[i] ==> ws[i].start == ws[i].end && others[i].start == others[i].end
    requires d == e || LexGreater(d, e)
    ensures FillsFirst(ws, others)
  {
    forall j | 0 <= j < |ws| && d[j] == e[j]
      ensures SameSize(ws, others, j)
    {
    }
    if d != e {
      var k :| 0 <= k < |d| && GreaterAt(d, e, k);
    }
  }

  /** The scheduling layer as the event loop sees it. */
  class Layer {
    const schedulers: seq<Scheduler>
    const manager: FreeSchedulersManager
    const algo: AlgoSimple
    ghost var routed: map<NDRange, RoutedAs>  // the NDRanges routed so far

    ghost function Queues(): (qs: seq<seq<WorkGroupRange>>)
      reads schedulers
      ensures |qs| == |schedulers| && forall i :: 0 <= i < |qs| ==> qs[i] == schedulers[i].inQueue
    {
      QueuesOf(schedulers)
    }

    ghost function Timers(): (ts: seq<bool>)
      reads schedulers
      ensures |ts| == |schedulers| && forall i :: 0 <= i < |ts| ==> ts[i] == schedulers[i].timerActive
    {
      TimersOf(schedulers)
    }

    ghost predicate SchedulersValid()
      reads schedulers, manager
    {
      IdleExact(Ids(schedulers), Timers(), Queues(), manager.freeSchedulers) &&
      |schedulers| <= manager.capacity && manager.Valid() &&
      forall i, j :: 0 <= i < j < |schedulers| ==> schedulers[i] != schedulers[j]
    }

    ghost predicate Valid()
      reads this, schedulers, manager, routed.Keys, set nd | nd in routed :: nd.event
    {
      SchedulersValid() && NDRangesValid(routed)
    }

    ghost predicate NDRangesValid(routed: map<NDRange, RoutedAs>)
      reads schedulers, routed.Keys, set nd | nd in routed :: nd.event
    {
      ParentsIn(Queues(), routed.Keys) &&
      (forall nd :: nd in routed ==> |routed[nd].distribution| == |routed[nd].queues|) &&
      (forall nd :: nd in routed ==> Accounted(nd, Queues(), Dropped(routed[nd]))) &&
      forall nd, md :: nd in routed && md in routed && nd != md ==> nd.event != md.event
    }

    /** No queued range refers to a destroyed NDRange. */
    lemma NoDanglingRange(i: nat, p: nat)
      requires Valid() && i < |schedulers| && p < |schedulers[i].inQueue|
      ensures var nd := schedulers[i].inQueue[p].parent;
              nd in routed && !nd.destroyed && nd.wgrsInTheWild > 0 && nd.event.state != Complete
    {
      InFlightPositive(Queues(), schedulers[i].inQueue[p].parent);
      assert Queues()[i][p].parent == schedulers[i].inQueue[p].parent;
    }

    lemma TimerMeansQueue(i: nat)
      requires SchedulersValid() && i < |schedulers|
      ensures schedulers[i].timerActive <==> schedulers[i].inQueue != []
    {
    }

    /** An event is complete, after exactly one completion, if and only if no range of its NDRange is
        queued and each island given work had room for it when the NDRange was routed. */
    lemma CompleteIffRetired(nd: NDRange)
      requires Valid() && nd in routed
      ensures nd.event.state == Complete <==>
              HadRoom(routed[nd]) &&
              forall i, p :: 0 <= i < |schedulers| && 0 <= p < |schedulers[i].inQueue| ==>
                schedulers[i].inQueue[p].parent != nd
      ensures nd.event.completions == if nd.event.state == Complete then 1 else 0
    {
      hide SchedulersValid;
      InFlightPositive(Queues(), nd);
      DropsNothing(routed[nd].distribution, routed[nd].queues, |routed[nd].distribution|);
      assert forall i, p :: 0 <= i < |Queues()| && 0 <= p < |Queues()[i]| ==>
        Queues()[i][p] == schedulers[i].inQueue[p];
    }

    /** Every tick shortens the backlog, so ticks come to an end; when none is left, exactly the
        NDRanges whose shares all found room are complete. */
    lemma QuietMeansComplete(nd: NDRange)
      requires Valid() && nd in routed && Backlog(Queues()) == 0
      ensures nd.event.state == Complete <==> HadRoom(routed[nd])
      ensures forall i :: 0 <= i < |schedulers| ==> !schedulers[i].timerActive
    {
      forall i | 0 <= i < |schedulers|
        ensures schedulers[i].inQueue == []
      {
        InFlightUpdate(Queues(), i, [], nd);
        assert Queues()[i] == schedulers[i].inQueue;
      }
      CompleteIffRetired(nd);
    }

    constructor (schedulers: seq<Scheduler>, manager: FreeSchedulersManager)
      requires Distinct(Ids(schedulers)) && |schedulers| <= manager.capacity
      requires manager.Valid() && manager.freeSchedulers == []
      requires forall i, j :: 0 <= i < j < |schedulers| ==> schedulers[i] != schedulers[j]
      requires forall i :: 0 <= i < |schedulers| ==> schedulers[i].Valid() && schedulers[i].inQueue == []
      modifies manager
      ensures Valid() && this.schedulers == schedulers && this.manager == manager && routed == map[]
      ensures manager.freeSchedulers == Ids(schedulers)
      ensures algo.Valid() && fresh(algo) && algo.numIslands == |schedulers|
    {
      hide IdleExact, Distinct, InFlight, AlgoSimple.Valid, Queues, QueuesOf, Timers, TimersOf, Leaves;
      this.schedulers := schedulers;
      this.manager := manager;
      algo := new AlgoSimple(|schedulers|);
      routed := map[];
      new;
      var i := 0;
      while i < |schedulers|
        invariant 0 <= i <= |schedulers| && manager.Valid() && manager.freeSchedulers == Ids(schedulers)[..i]
        invariant algo.Valid() && routed == map[]
        invariant forall j :: 0 <= j < |schedulers| ==> schedulers[j].Valid() && schedulers[j].inQueue == []
      {
        NotBefore(Ids(schedulers), i);
        manager.AddFreeScheduler(schedulers[i].id);
        i := i + 1;
      }
      assert Ids(schedulers)[..|schedulers|] == Ids(schedulers);
      AllIdle(Ids(schedulers), Timers(), Queues());
    }

    twostate lemma OneChanged(i: nat)
      requires i < |schedulers|
      requires forall j :: 0 <= j < |schedulers| && j != i ==> unchanged(schedulers[j])
      ensures Queues() == old(Queues())[i := schedulers[i].inQueue]
      ensures Timers() == old(Timers())[i := schedulers[i].timerActive]
    {
    }

    /** wgr is submitted to scheduler i. */
    method Submit(i: nat, wgr: WorkGroupRange)
      requires SchedulersValid() && i < |schedulers|
      modifies schedulers[i], manager
      ensures SchedulersValid() && Queues() == old(Queues())[i := Enqueued(old(Queues())[i], wgr)]
    {
      hide InFlight, IdleExact, Distinct;
      ghost var free := manager.freeSchedulers;
      IdleExactAt(Ids(schedulers), Timers(), Queues(), free, i);
      schedulers[i].SubmitWgr(wgr, manager);
      OneChanged(i);
      ManagerDistinct();
      SubmitKeepsIdle(Ids(schedulers), old(Timers()), old(Queues()), free, i, wgr, manager.freeSchedulers);
    }

    lemma ManagerDistinct()
      requires manager.Valid()
      ensures Distinct(manager.freeSchedulers)
    {
    }

    /** The timer of scheduler i fires. */
    method OnTimer(i: nat) returns (wgr: WorkGroupRange)
      requires Valid() && i < |schedulers| && schedulers[i].timerActive
      modifies schedulers[i], manager
      modifies schedulers[i].inQueue[0].parent, schedulers[i].inQueue[0].parent.event
      ensures Valid() && routed == old(routed)
      ensures Queues() == old(Queues())[i := old(schedulers[i].inQueue)[1..]]
      ensures wgr == old(schedulers[i].inQueue)[0]
      ensures Backlog(Queues()) == old(Backlog(Queues())) - 1
    {
      hide InFlight, Backlog, SchedulersValid, Dropped, Queues;
      ghost var q, qs := schedulers[i].inQueue, Queues();
      TimerMeansQueue(i);
      NoDanglingRange(i, 0);
      wgr := Tick(i);
      forall nd | nd in routed
        ensures Accounted(nd, Queues(), Dropped(routed[nd]))
      {
        assert old(Accounted(nd, Queues(), Dropped(routed[nd])));
        InFlightUpdate(qs, i, q[1..], nd);
      }
      InFlightUpdate(qs, i, q[1..], wgr.parent);
    }

    /** What the tick does to the schedulers and to the NDRange whose range it retires. */
    method Tick(i: nat) returns (wgr: WorkGroupRange)
      requires SchedulersValid() && i < |schedulers| && schedulers[i].timerActive
      requires schedulers[i].inQueue != [] ==>
               !schedulers[i].inQueue[0].parent.destroyed &&
               schedulers[i].inQueue[0].parent.wgrsInTheWild > 0
      modifies schedulers[i], manager
      modifies schedulers[i].inQueue[0].parent, schedulers[i].inQueue[0].parent.event
      ensures SchedulersValid() && old(schedulers[i].inQueue) != [] && wgr == old(schedulers[i].inQueue)[0]
      ensures Queues() == old(Queues())[i := old(schedulers[i].inQueue)[1..]]
      ensures wgr.parent.wgrsInTheWild == old(schedulers[i].inQueue[0].parent.wgrsInTheWild) - 1
      ensures wgr.parent.destroyed == (wgr.parent.wgrsInTheWild == 0)
      ensures wgr.parent.event.completions == old(schedulers[i].inQueue[0].parent.event.completions) +
              if wgr.parent.destroyed then 1 else 0
      ensures wgr.parent.event.state == if wgr.parent.destroyed then Complete
              else old(schedulers[i].inQueue[0].parent.event.state)
      ensures wgr.parent.nextWgr == old(schedulers[i].inQueue[0].parent.nextWgr)
    {
      hide IdleExact, Distinct;
      ghost var qs, ts, free := Queues(), Timers(), manager.freeSchedulers;
      IdleExactAt(Ids(schedulers), ts, qs, free, i);
      TickKeepsIdle(Ids(schedulers), ts, qs, free, i);
      wgr := schedulers[i].OnTimer(manager);
      OneChanged(i);
    }

    /** nd is being routed: some of its ranges are queued, and dropped more were dropped. */
    ghost predicate Routing(nd: NDRange, dropped: nat)
      reads this, schedulers, manager, routed.Keys, (set md | md in routed :: md.event), nd, nd.event
    {
      SchedulersValid() && ParentsIn(Queues(), routed.Keys + {nd}) && nd !in routed && !nd.destroyed &&
      nd.wgrsInTheWild == InFlight(Queues(), nd) + dropped &&
      nd.event.state != Complete && nd.event.completions == 0 &&
      (forall md :: md in routed ==> |routed[md].distribution| == |routed[md].queues|) &&
      (forall md :: md in routed ==> Accounted(md, Queues(), Dropped(routed[md])) && md.event != nd.event) &&
      forall md, md' :: md in routed && md' in routed && md != md' ==> md.event != md'.event
    }

    lemma BeginRouting(nd: NDRange)
      requires Valid() && nd !in routed && nd.wgrsInTheWild == 0 && !nd.destroyed
      requires nd.event.state != Complete && nd.event.completions == 0
      requires forall md :: md in routed ==> md.event != nd.event
      ensures Routing(nd, 0)
    {
      NoneInFlight(Queues(), nd, routed.Keys);
    }

    lemma FinishRouting(nd: NDRange, r: RoutedAs)
      requires Routing(nd, Dropped(r)) && nd.wgrsInTheWild > 0 && |r.distribution| == |r.queues|
      ensures SchedulersValid() && NDRangesValid(routed[nd := r]) && !nd.destroyed
    {
      hide SchedulersValid;
      assert routed[nd := r].Keys == routed.Keys + {nd};
    }

    /** Carves numWgs work-groups from nd and submits them to scheduler i. */
    method CarveAndSubmit(nd: NDRange, i: nat, numWgs: nat, cost: nat, ghost dropped: nat)
      returns (wgr: WorkGroupRange, ghost dropped': nat)
      requires i < |schedulers| && Routing(nd, dropped) && nd.nextWgr + numWgs <= nd.totalSize && nd.totalSize >= 1
      modifies schedulers[i], manager, nd
      ensures Routing(nd, dropped') && nd.wgrsInTheWild == old(nd.wgrsInTheWild) + 1
      ensures dropped' == dropped + if |old(Queues())[i]| < QUEUE_CAPACITY then 0 else 1
      ensures wgr == WorkGroupRange(nd, old(nd.nextWgr), nd.nextWgr, cost) && nd.nextWgr == old(nd.nextWgr) + numWgs
      ensures Queues() == old(Queues())[i := Enqueued(old(Queues())[i], wgr)]
    {
      hide InFlight, Count, SchedulersValid, ParentsIn, Queues, QueuesOf, Enqueued;
      ghost var qs := Queues();
      wgr := nd.CarveWgs(numWgs);
      wgr := wgr.(executionCost := cost);
      Submit(i, wgr);
      SubmitCounts(qs, i, wgr, nd);
      SubmitParents(qs, i, wgr, routed.Keys + {nd});
      dropped' := if |qs[i]| < QUEUE_CAPACITY then dropped else dropped + 1;
      forall md | md in routed
        ensures Accounted(md, Queues(), Dropped(routed[md]))
      {
        SubmitCounts(qs, i, wgr, md);
      }
    }

    /** Carves nd up along the distribution found, of n work-groups, and submits the shares, in island
        order. */
    method SubmitShares(nd: NDRange, ghost marked: seq<int>, ghost n: nat)
      returns (ghost shares: seq<WorkGroupRange>, ghost dropped: nat)
      requires Routing(nd, 0) && nd.nextWgr == 0 && nd.wgrsInTheWild == 0 && nd.totalSize >= 1
      requires algo.Valid() && algo.numIslands == |schedulers| == |marked|
      requires n in {0, nd.totalSize} && IsDistribution(algo.result, n, marked, 0)
      requires forall i :: 0 <= i < |schedulers| && marked[i] != UNSUITABLE_ISLAND ==>
                 algo.currentWorkPotentialCost[i] >= 0 && algo.currentWorkReconfCost[i] >= 0
      modifies schedulers, manager, nd
      ensures Routing(nd, dropped) && nd.nextWgr == n && (nd.wgrsInTheWild > 0 <==> n > 0)
      ensures dropped == Drops(algo.result, old(Queues()), |schedulers|)
      ensures SharesQueued(nd, algo.result, algo.TheCosts(), shares, old(Queues()), Queues(), |schedulers|)
    {
      hide Routing, IsDistribution, Placed, Enqueued, IsShare, SharesQueued, Queues, QueuesOf, InFlight,
        SchedulersValid, Ids;
      NoSharesYet(nd, algo.result, algo.TheCosts(), Queues());
      ghost var d, costs, qs := algo.result, algo.TheCosts(), Queues();
      PlacedAll(d, n, marked);
      NotDestroyed(nd, 0);
      shares, dropped := [], 0;
      var i := 0;
      while i < |schedulers|
        invariant 0 <= i <= |schedulers| && Routing(nd, dropped)
        invariant nd.nextWgr == n - Placed(d, i) && Placed(d, i) >= 0
        invariant nd.wgrsInTheWild > 0 <==> Placed(d, i) < n
        invariant SharesQueued(nd, d, costs, shares, qs, Queues(), i) && dropped == Drops(d, qs, i)
        modifies schedulers, manager, nd
      {
        PlacedStep(d, n, marked, i);
        QueueUntouched(nd, d, costs, shares, qs, Queues(), i);
        if algo.result[i] == UNSUITABLE_ISLAND || algo.result[i] == 0 {
          ShareSkipped(nd, d, costs, shares, qs, Queues(), i);
          shares := shares + [WorkGroupRange(nd, 0, 0, 0)];
        } else {
          var cost := Cost(algo.result[i], algo.currentWorkPotentialCost[i], algo.currentWorkReconfCost[i]);
          ghost var before := Queues();
          var wgr;
          wgr, dropped := CarveAndSubmit(nd, i, algo.result[i], cost, dropped);
          ShareQueued(nd, d, costs, shares, qs, before, i, wgr);
          shares := shares + [wgr];
        }
        i := i + 1;
      }
    }

    lemma NotDestroyed(nd: NDRange, dropped: nat)
      requires Routing(nd, dropped)
      ensures !nd.destroyed
    {
    }

    /** Submits the shares of the distribution found and records what nd was routed by; if no island is
        suitable, nothing is submitted or recorded. */
    method SubmitAndRecord(nd: NDRange, ghost suitable: seq<bool>) returns (ghost shares: seq<WorkGroupRange>)
      requires Routing(nd, 0) && nd.nextWgr == 0 && nd.wgrsInTheWild == 0 && nd.totalSize >= 1
      requires algo.Valid() && algo.numIslands == |schedulers| == |suitable|
      requires if exists i :: 0 <= i < |schedulers| && suitable[i]
               then IsDistribution(algo.result, nd.totalSize, Marked(suitable), 0) else algo.result == Marked(suitable)
      requires forall i :: 0 <= i < |schedulers| && suitable[i] ==>
                 algo.currentWorkPotentialCost[i] >= 0 && algo.currentWorkReconfCost[i] >= 0
      modifies this`routed, schedulers, manager, nd
      ensures Valid() && !nd.destroyed
      ensures !nd.HasMoreWgs() <==> exists i :: 0 <= i < |schedulers| && suitable[i]
      ensures routed == if nd.HasMoreWgs() then old(routed) else old(routed)[nd := RoutedAs(algo.result, old(Queues()))]
      ensures nd.HasMoreWgs() ==> Queues() == old(Queues()) && nd.nextWgr == 0
      ensures SharesQueued(nd, algo.result, algo.TheCosts(), shares, old(Queues()), Queues(), |schedulers|)
    {
      hide SchedulersValid, NDRangesValid, Routing, IsDistribution, SharesQueued, Queues;
      ghost var found := exists i :: 0 <= i < |schedulers| && suitable[i];
      if !found {
        NothingPlaced(suitable);
      }
      ghost var dropped;
      shares, dropped := SubmitShares(nd, Marked(suitable), if found then nd.totalSize else 0);
      if found {
        FinishRouting(nd, RoutedAs(algo.result, old(Queues())));
        routed := routed[nd := RoutedAs(algo.result, old(Queues()))];
      } else {
        NothingRouted(nd, dropped);
        NothingQueued(nd, algo.result, algo.TheCosts(), shares, old(Queues()), Queues(), suitable);
      }
    }

    /** Routes nd: finds the distribution and submits each island its share. The parameters are what
        the resource check, the clock and the tracker answer. */
    method RouteNdrange(nd: NDRange, suitable: seq<bool>, remaining: seq<nat>, reconf: seq<nat>, perWorkGroup: seq<nat>)
      returns (ghost shares: seq<WorkGroupRange>)
      requires Valid() && algo.Valid() && algo.numIslands == |schedulers|
      requires |suitable| == |remaining| == |reconf| == |perWorkGroup| == |schedulers|
      requires nd.totalSize >= 1 && nd.nextWgr == 0 && nd.wgrsInTheWild == 0 && !nd.destroyed
      requires nd !in routed && (forall md :: md in routed ==> md.event != nd.event)
      requires nd.event.state != Complete && nd.event.completions == 0
      modifies this, schedulers, manager, algo, nd
      ensures Valid() && algo.Valid() && !nd.destroyed
      ensures !nd.HasMoreWgs() <==> exists i :: 0 <= i < |schedulers| && suitable[i]
      ensures routed == if nd.HasMoreWgs() then old(routed) else old(routed)[nd := RoutedAs(algo.result, old(Queues()))]
      ensures nd.HasMoreWgs() ==> Queues() == old(Queues()) && nd.nextWgr == 0
      ensures algo.TheCosts() == CostsAt(suitable, remaining, reconf, perWorkGroup)
      ensures !nd.HasMoreWgs() ==> Optimal(algo.result, nd.totalSize, Marked(suitable), algo.TheCosts())
      ensures !nd.HasMoreWgs() ==> Tiles(PricedRanges(shares), nd.totalSize)
      ensures !nd.HasMoreWgs() ==>
                DoneSoonest(algo.currentMin, PricedRanges(shares), nd.totalSize, suitable, remaining, reconf,
                  perWorkGroup)
      ensures SharesQueued(nd, algo.result, algo.TheCosts(), shares, old(Queues()), Queues(), |schedulers|)
    {
      hide SchedulersValid, NDRangesValid, Routing, Optimal, IsDistribution, IsMakespan, SharesQueued, Queues,
        DoneSoonest, Tiles;
      BeginRouting(nd);
      algo.FindDistribution(nd.totalSize, suitable, remaining, reconf, perWorkGroup);
      if exists i :: 0 <= i < |schedulers| && suitable[i] {
        OptimalDistributes(algo.result, nd.totalSize, Marked(suitable), algo.TheCosts());
      }
      ghost var before := Queues();
      shares := SubmitAndRecord(nd, suitable);
      if !nd.HasMoreWgs() {
        QueuedDoneSoonest(nd, algo.result, algo.currentMin, shares, suitable, remaining, reconf, perWorkGroup, before,
          Queues());
      }
    }

    /** An NDRange of which nothing is queued is as if it had not been routed. */
    lemma NothingRouted(nd: NDRange, dropped: nat)
      requires Routing(nd, dropped) && nd.wgrsInTheWild == 0
      ensures SchedulersValid() && NDRangesValid(routed) && !nd.destroyed
    {
      InFlightPositive(Queues(), nd);
    }
  }

  /** So are the shares that are queued. */
  lemma QueuedDoneSoonest(nd: NDRange, d: seq<int>, m: int, shares: seq<WorkGroupRange>, suitable: seq<bool>,
                          remaining: seq<nat>, reconf: seq<nat>, perWorkGroup: seq<nat>,
                          before: seq<seq<WorkGroupRange>>, after: seq<seq<WorkGroupRange>>)
    requires |suitable| == |remaining| == |reconf| == |perWorkGroup| && nd.totalSize >= 1
    requires Optimal(d, nd.totalSize, Marked(suitable), CostsAt(suitable, remaining, reconf, perWorkGroup))
    requires IsMakespan(m, d, CostsAt(suitable, remaining, reconf, perWorkGroup))
    requires SharesQueued(nd, d, CostsAt(suitable, remaining, reconf, perWorkGroup), shares, before, after, |suitable|)
    ensures DoneSoonest(m, PricedRanges(shares), nd.totalSize, suitable, remaining, reconf, perWorkGroup)
    ensures Tiles(PricedRanges(shares), nd.totalSize)
  {
    hide IsMakespan, DoneSoonest, Placed, Enqueued, Tiles;
    assert IsDistribution(d, nd.totalSize, Marked(suitable), 0);
    forall i | 0 <= i < |d| && d[i] > 0
      ensures suitable[i] && shares[i].end - shares[i].start == d[i]
      ensures shares[i].executionCost == d[i] * perWorkGroup[i] + reconf[i]
    {
    }
    SharesDoneSoonest(d, m, PricedRanges(shares), nd.totalSize, suitable, remaining, reconf, perWorkGroup);
    forall i | 0 <= i < |d|
      ensures ShareAt(PricedRanges(shares), d, nd.totalSize, i)
    {
    }
    SharesTile(PricedRanges(shares), d, nd.totalSize, Marked(suitable));
  }

  lemma OptimalDistributes(d: seq<int>, n: int, v: seq<int>, costs: Costs)
    requires Optimal(d, n, v, costs)
    ensures IsDistribution(d, n, v, 0)
  {
  }

  /** Without a suitable island the marks are the distribution of nothing. */
  lemma NothingPlaced(suitable: seq<bool>)
    requires forall i :: 0 <= i < |suitable| ==> !suitable[i]
    ensures IsDistribution(Marked(suitable), 0, Marked(suitable), 0)
  {
    NoneSuitable(Marked(suitable), 0);
  }

  lemma {:induction false} NoneSuitable(v: seq<int>, i: nat)
    requires i <= |v| && forall j :: i <= j < |v| ==> v[j] == UNSUITABLE_ISLAND
    ensures Placed(v, i) == 0
    decreases |v| - i
  {
    if i < |v| {
      NoneSuitable(v, i + 1);
    }
  }

  lemma NothingQueued(nd: NDRange, d: seq<int>, costs: Costs, shares: seq<WorkGroupRange>,
                      before: seq<seq<WorkGroupRange>>, after: seq<seq<WorkGroupRange>>, suitable: seq<bool>)
    requires SharesQueued(nd, d, costs, shares, before, after, |d|) && d == Marked(suitable)
    requires forall i :: 0 <= i < |suitable| ==> !suitable[i]
    ensures after == before
  {
    assert forall i :: 0 <= i < |d| ==> after[i] == before[i];
  }

  function Cost(wgs: int, perWorkGroup: int, reconf: int): (cost: nat)
    requires wgs >= 0 && perWorkGroup >= 0 && reconf >= 0
  {
    wgs * perWorkGroup + reconf
  }

  /** Of the first k islands, those given work have their share behind what they had queued before
      (unless their queue was full); all other queues are as before. */
  ghost predicate SharesQueued(nd: NDRange, d: seq<int>, costs: Costs, shares: seq<WorkGroupRange>,
                               before: seq<seq<WorkGroupRange>>, after: seq<seq<WorkGroupRange>>, k: nat)
  {
    |before| == |after| == |d| && CostsFor(costs, |d|) && |shares| == k <= |d| &&
    (forall i :: 0 <= i < k && d[i] > 0 ==>
      IsShare(shares[i], nd, d, costs, i) &&
      after[i] == Enqueued(before[i], shares[i])) &&
    (forall i :: 0 <= i < k && d[i] <= 0 ==> shares[i] == WorkGroupRange(nd, 0, 0, 0)) &&
    forall i :: 0 <= i < |d| && (i >= k || d[i] <= 0) ==> after[i] == before[i]
  }

  lemma NoSharesYet(nd: NDRange, d: seq<int>, costs: Costs, qs: seq<seq<WorkGroupRange>>)
    requires |qs| == |d| && CostsFor(costs, |d|)
    ensures SharesQueued(nd, d, costs, [], qs, qs, 0)
  {
  }

  lemma QueueUntouched(nd: NDRange, d: seq<int>, costs: Costs, shares: seq<WorkGroupRange>,
                       before: seq<seq<WorkGroupRange>>, after: seq<seq<WorkGroupRange>>, k: nat)
    requires k < |d| && SharesQueued(nd, d, costs, shares, before, after, k)
    ensures k < |before| == |after| && after[k] == before[k]
  {
  }

  lemma ShareSkipped(nd: NDRange, d: seq<int>, costs: Costs, shares: seq<WorkGroupRange>,
                     before: seq<seq<WorkGroupRange>>, after: seq<seq<WorkGroupRange>>, k: nat)
    requires k < |d| && SharesQueued(nd, d, costs, shares, before, after, k) && d[k] <= 0
    ensures SharesQueued(nd, d, costs, shares + [WorkGroupRange(nd, 0, 0, 0)], before, after, k + 1)
  {
  }

  lemma ShareQueued(nd: NDRange, d: seq<int>, costs: Costs, shares: seq<WorkGroupRange>,
                    before: seq<seq<WorkGroupRange>>, after: seq<seq<WorkGroupRange>>, k: nat, w: WorkGroupRange)
    requires k < |d| && SharesQueued(nd, d, costs, shares, before, after, k) && d[k] > 0
    requires w == WorkGroupRange(nd, w.start, w.start + d[k], w.executionCost) &&
             w.executionCost == d[k] * costs.perWorkGroup[k] + costs.reconf[k]
    requires w.start == nd.totalSize - Placed(d, k) && Placed(d, k) == d[k] + Placed(d, k + 1)
    ensures k < |after| && SharesQueued(nd, d, costs, shares + [w], before, after[k := Enqueued(after[k], w)], k + 1)
  {
  }
}
