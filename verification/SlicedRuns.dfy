/** Slicing over whole runs: NDRanges are accepted, cut in turns (cpp/algo_slicing.cc:113-167) and
    counted down as their slices are retired (cpp/scheduler_emu.cc:91-120, cpp/ndrange.cc:188-206).
    The count can reach zero between two slices: the NDRange is then deleted, its event complete,
    while it stands in the ring with work-groups left. Said exactly, for every tick. */
module SlicedRuns {
  import opened Basics
  import opened NDRanges
  import opened Scheduling
  import opened Slicing

  lemma {:induction false} SingleCounts(qs: seq<seq<WorkGroupRange>>, nd: NDRange)
    requires forall i :: 0 <= i < |qs| ==> |qs[i]| <= 1
    ensures InFlight(qs, nd) <= |qs|
  {
    if qs != [] {
      SingleCounts(qs[1..], nd);
      CountAtMost(qs[0], nd);
    }
  }

  lemma CountAtMost(q: seq<WorkGroupRange>, nd: NDRange)
    requires |q| <= 1
    ensures Count(q, nd) <= 1
  {
  }

  /** The queues after a turn: a slice of nd on an idle scheduler, or nothing. */
  ghost predicate Turned(qs: seq<seq<WorkGroupRange>>, chosen: int, slices: seq<WorkGroupRange>, nd: NDRange,
                         qs': seq<seq<WorkGroupRange>>) {
    (forall w :: w in slices ==> w.parent == nd) && |slices| <= 1 &&
    if chosen == -1 then slices == [] && qs' == qs
    else 0 <= chosen < |qs| && qs[chosen] == [] && qs' == qs[chosen := slices]
  }

  lemma TurnedCounts(qs: seq<seq<WorkGroupRange>>, chosen: int, slices: seq<WorkGroupRange>, nd: NDRange,
                     qs': seq<seq<WorkGroupRange>>, md: NDRange)
    requires Turned(qs, chosen, slices, nd, qs')
    ensures InFlight(qs', md) == InFlight(qs, md) + if md == nd then |slices| else 0
  {
    if chosen != -1 {
      InFlightUpdate(qs, chosen, slices, md);
    }
  }

  lemma TurnedQueues(qs: seq<seq<WorkGroupRange>>, chosen: int, slices: seq<WorkGroupRange>, nd: NDRange,
                     qs': seq<seq<WorkGroupRange>>, parents: set<NDRange>)
    requires Turned(qs, chosen, slices, nd, qs') && nd in parents && ParentsIn(qs, parents)
    requires forall i :: 0 <= i < |qs| ==> |qs[i]| <= 1
    ensures ParentsIn(qs', parents) && forall i :: 0 <= i < |qs'| ==> |qs'[i]| <= 1
  {
  }

  /** The slice of scheduler i is retired. */
  lemma RetiredCounts(qs: seq<seq<WorkGroupRange>>, i: nat, md: NDRange)
    requires i < |qs| && |qs[i]| == 1
    ensures InFlight(qs, md) == InFlight(qs[i := []], md) + if md == qs[i][0].parent then 1 else 0
  {
    InFlightUpdate(qs, i, [], md);
  }

  lemma ParentAt(qs: seq<seq<WorkGroupRange>>, i: nat, parents: set<NDRange>)
    requires ParentsIn(qs, parents) && i < |qs| && qs[i] != []
    ensures qs[i][0].parent in parents && InFlight(qs, qs[i][0].parent) > 0
  {
    InFlightPositive(qs, qs[i][0].parent);
  }

  /** The schedulers with the slicing algorithm in front of them. */
  class Runtime {
    const algo: AlgoSlicing
    const layer: Layer

    ghost predicate Valid()
      reads algo, algo.carved.Keys, layer.schedulers, layer.manager
    {
      algo.Valid() && layer.SchedulersValid() &&
      (forall i :: 0 <= i < |layer.schedulers| ==> layer.schedulers[i].id == i) &&
      Counted(algo.carved, layer.Queues())
    }

    /** Only idle schedulers are given slices; each NDRange counts those that are not retired; it is
        deleted once it has had slices and all of them are. */
    ghost predicate Counted(carved: map<NDRange, seq<WorkGroupRange>>, qs: seq<seq<WorkGroupRange>>)
      reads carved.Keys
    {
      ParentsIn(qs, carved.Keys) && (forall i :: 0 <= i < |qs| ==> |qs[i]| <= 1) &&
      forall nd :: nd in carved ==> Counts(nd, carved[nd] != [], qs)
    }

    ghost predicate Counts(nd: NDRange, sliced: bool, qs: seq<seq<WorkGroupRange>>)
      reads nd
    {
      nd.wgrsInTheWild == InFlight(qs, nd) && (InFlight(qs, nd) > 0 ==> sliced) &&
      nd.destroyed == (sliced && InFlight(qs, nd) == 0)
    }

    /** Deleted, but still in the ring: the next turn it is given touches freed memory. */
    ghost predicate Lost(nd: NDRange)
      reads algo, nd
    {
      nd in algo.ndranges && nd.destroyed
    }

    constructor (algo: AlgoSlicing, layer: Layer)
      requires algo.Valid() && algo.carved == map[] && layer.SchedulersValid()
      requires forall i :: 0 <= i < |layer.schedulers| ==> layer.schedulers[i].id == i
      requires forall i :: 0 <= i < |layer.schedulers| ==> layer.schedulers[i].inQueue == []
      ensures Valid() && this.algo == algo && this.layer == layer
    {
      this.algo := algo;
      this.layer := layer;
    }

    /** A new NDRange. */
    method Route(nd: NDRange) returns (accepted: bool)
      requires Valid() && nd !in algo.carved && nd.nextWgr == 0 && nd.totalSize >= 1
      requires nd.wgrsInTheWild == 0 && !nd.destroyed
      modifies algo
      ensures Valid() && accepted == (|old(algo.ndranges)| < RING_CAPACITY)
      ensures algo.carved == if accepted then old(algo.carved)[nd := []] else old(algo.carved)
      ensures forall md :: md in algo.carved && md != nd ==> (Lost(md) <==> old(Lost(md)))
      ensures !Lost(nd)
    {
      hide AlgoSlicing.Valid, Layer.SchedulersValid, Layer.Queues, InFlight;
      NoneInFlight(layer.Queues(), nd, algo.carved.Keys);
      accepted := algo.RouteNdrange(nd);
    }

    /** The callback for idle schedulers. The NDRange that takes its turn must not be lost; no other
        is touched, and none is lost by it. */
    method OnFreeSchedulers(offers: seq<Offer>) returns (ghost chosen: int, ghost slices: seq<WorkGroupRange>)
      requires Valid() && OffersFor(offers, |layer.schedulers|)
      requires algo.ndranges != [] && layer.manager.freeSchedulers != [] ==> !Lost(algo.ndranges[0])
      modifies algo, algo.ndranges[..if algo.ndranges == [] then 0 else 1], layer.schedulers, layer.manager
      ensures Valid() && algo.carved.Keys == old(algo.carved.Keys)
      ensures if old(algo.ndranges) == [] || old(layer.manager.freeSchedulers) == []
              then algo.carved == old(algo.carved) && layer.Queues() == old(layer.Queues())
              else var nd := old(algo.ndranges)[0];
                nd in old(algo.carved) && algo.carved == old(algo.carved)[nd := old(algo.carved)[nd] + slices] &&
                Turned(old(layer.Queues()), chosen, slices, nd, layer.Queues())
      ensures forall md :: md in old(algo.carved) ==> (Lost(md) <==> old(Lost(md)))
    {
      hide AlgoSlicing.Valid, Layer.SchedulersValid, Layer.Queues, OffersFor, Turned, ParentsIn, InFlight;
      chosen, slices := -1, [];
      RingIsCarved();
      if algo.ndranges == [] || layer.manager.freeSchedulers == [] {
        return;
      }
      ghost var qs, carved, nd := layer.Queues(), algo.carved, algo.ndranges[0];
      assert nd in carved && Counts(nd, carved[nd] != [], qs);
      chosen, slices := Turn(offers);
      TurnedQueues(qs, chosen, slices, nd, layer.Queues(), carved.Keys);
      assert algo.carved.Keys == carved.Keys;
      forall md | md in carved
        ensures Counts(md, algo.carved[md] != [], layer.Queues())
      {
        assert old(Counts(md, carved[md] != [], qs));
        TurnedCounts(qs, chosen, slices, nd, layer.Queues(), md);
      }
      RingIsCarved();
    }

    /** The turn of the first NDRange. */
    method Turn(offers: seq<Offer>) returns (ghost chosen: int, ghost slices: seq<WorkGroupRange>)
      requires algo.Valid() && layer.SchedulersValid() && OffersFor(offers, |layer.schedulers|)
      requires forall i :: 0 <= i < |layer.schedulers| ==> layer.schedulers[i].id == i
      requires algo.ndranges != [] && layer.manager.freeSchedulers != [] && !algo.ndranges[0].destroyed
      modifies algo, algo.ndranges[0], layer.schedulers, layer.manager
      ensures algo.Valid() && layer.SchedulersValid()
      ensures var nd := old(algo.ndranges)[0];
              nd in old(algo.carved) && algo.carved == old(algo.carved)[nd := old(algo.carved)[nd] + slices] &&
              Turned(old(layer.Queues()), chosen, slices, nd, layer.Queues()) && !nd.destroyed &&
              nd.wgrsInTheWild == old(algo.ndranges[0].wgrsInTheWild) + |slices|
    {
      hide AlgoSlicing.Valid, Layer.SchedulersValid, Layer.Queues, OffersFor, AlgoSlicing.Quantum,
        AlgoSlicing.ChosenWith;
      chosen, slices := algo.OnFreeSchedulers(layer, offers);
    }

    lemma RingIsCarved()
      requires Valid()
      ensures forall nd :: nd in algo.ndranges ==> nd in algo.carved
      ensures forall nd :: nd in algo.carved ==> (nd in algo.ndranges <==> nd.HasMoreWgs())
    {
      hide Layer.SchedulersValid, Layer.Queues, Counted;
      forall nd | nd in algo.carved
        ensures nd in algo.ndranges <==> nd.HasMoreWgs()
      {
        assert algo.CarvedWell(nd);
      }
    }

    /** A slice is retired. Its NDRange is deleted exactly if no other slice of it is out, and it is
        lost if it has work-groups left then; all others are as they were. */
    method Tick(i: nat) returns (wgr: WorkGroupRange)
      requires Valid() && i < |layer.schedulers| && layer.schedulers[i].timerActive
      modifies layer.schedulers[i], layer.manager
      modifies layer.schedulers[i].inQueue[0].parent, layer.schedulers[i].inQueue[0].parent.event
      ensures Valid() && old(layer.schedulers[i].inQueue) == [wgr] && layer.schedulers[i].inQueue == []
      ensures wgr.parent in algo.carved
      ensures forall md :: md in algo.carved ==>
                (Lost(md) <==>
                 old(Lost(md)) ||
                 (md == wgr.parent && md.HasMoreWgs() && old(layer.schedulers[i].inQueue[0].parent.wgrsInTheWild) == 1))
      ensures Lost(wgr.parent) ==> wgr.parent.event.state == Complete
      ensures |layer.schedulers| == 1 && wgr.parent.HasMoreWgs() ==> Lost(wgr.parent)
    {
      hide AlgoSlicing.Valid, Layer.SchedulersValid, Layer.Queues, InFlight, Count;
      ghost var qs := layer.Queues();
      layer.TimerMeansQueue(i);
      ghost var nd := layer.schedulers[i].inQueue[0].parent;
      ParentAt(qs, i, algo.carved.Keys);
      assert Counts(nd, algo.carved[nd] != [], qs);
      SingleCounts(qs, nd);
      RingIsCarved();
      wgr := layer.Tick(i);
      forall md | md in algo.carved
        ensures Counts(md, algo.carved[md] != [], layer.Queues())
      {
        assert old(Counts(md, algo.carved[md] != [], qs));
        RetiredCounts(qs, i, md);
      }
      StillCarved(nd);
    }

    /** A tick does not move what is carved. */
    twostate lemma StillCarved(nd: NDRange)
      requires old(algo.Valid()) && unchanged(algo) && nd in algo.carved && nd.nextWgr == old(nd.nextWgr)
      requires forall md :: md in algo.carved && md != nd ==> unchanged(md)
      ensures algo.Valid()
    {
      forall md | md in algo.carved
        ensures algo.CarvedWell(md)
      {
        assert old(algo.CarvedWell(md));
      }
    }

    /** What is deleted is done, or lost: all its slices are retired, and they are all of it or not. */
    lemma DoneOrLost(nd: NDRange)
      requires Valid() && nd in algo.carved && nd.destroyed
      ensures Consecutive(algo.carved[nd], nd, nd.nextWgr)
      ensures forall i :: 0 <= i < |layer.schedulers| && layer.schedulers[i].inQueue != [] ==>
                layer.schedulers[i].inQueue[0].parent != nd
      ensures Lost(nd) <==> nd.nextWgr < nd.totalSize
    {
      hide Layer.SchedulersValid, InFlight, Consecutive;
      InFlightPositive(layer.Queues(), nd);
      assert algo.CarvedWell(nd) && Counts(nd, algo.carved[nd] != [], layer.Queues());
      assert forall i :: 0 <= i < |layer.schedulers| && layer.schedulers[i].inQueue != [] ==>
        layer.Queues()[i][0] == layer.schedulers[i].inQueue[0];
    }

    /** When the ring is empty and nothing is queued, all that was accepted is carved and retired. */
    lemma QuietMeansDone(nd: NDRange)
      requires Valid() && nd in algo.carved && algo.ndranges == []
      requires forall i :: 0 <= i < |layer.schedulers| ==> layer.schedulers[i].inQueue == []
      ensures nd.destroyed && nd.nextWgr == nd.totalSize && Consecutive(algo.carved[nd], nd, nd.totalSize)
    {
      hide Layer.SchedulersValid, InFlight;
      InFlightPositive(layer.Queues(), nd);
      assert algo.CarvedWell(nd) && Counts(nd, algo.carved[nd] != [], layer.Queues());
    }

    /** At most one slice on each scheduler. */
    lemma CountIsBounded(nd: NDRange)
      requires Valid() && nd in algo.carved
      ensures nd.wgrsInTheWild <= |layer.schedulers|
    {
      SingleCounts(layer.Queues(), nd);
    }
  }
}
