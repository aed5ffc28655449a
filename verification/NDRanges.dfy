/** Events (il/ocl_ds.h) and NDRanges, which are carved into work-group ranges (cpp/ndrange.cc).
    A range is [start, end): the constructor argument named size_x receives an end coordinate. */
module NDRanges {

  datatype EventState = Queued | Running | Complete

  class Event {
    var state: EventState
    ghost var completions: nat  // how often the completion callback has run

    constructor ()
      ensures state == Queued && completions == 0
    {
      state := Queued;
      completions := 0;
    }

    method SetAsComplete()
      modifies this
      ensures state == Complete && completions == old(completions) + 1
    {
      state := Complete;
      completions := completions + 1;
    }
  }

  datatype WorkGroupRange = WorkGroupRange(parent: NDRange, start: nat, end: nat, executionCost: nat)

  class NDRange {
    const event: Event
    const totalSize: nat
    var nextWgr: nat
    var wgrsInTheWild: nat
    var destroyed: bool  // set where the source deletes the object

    constructor (event: Event, sizeX: nat)
      ensures this.event == event && totalSize == sizeX && nextWgr == 0 && wgrsInTheWild == 0 && !destroyed
    {
      this.event := event;
      totalSize := sizeX;
      nextWgr := 0;
      wgrsInTheWild := 0;
      destroyed := false;
    }

    predicate HasMoreWgs()
      reads this
    {
      nextWgr < totalSize
    }

    /** Cuts the next numWgs work-groups off, or all that are left when there are fewer. */
    method CarveWgs(numWgs: nat) returns (wgr: WorkGroupRange)
      requires !destroyed && nextWgr <= totalSize && totalSize >= 1
      modifies this`nextWgr, this`wgrsInTheWild
      ensures wgr == WorkGroupRange(this, old(nextWgr), nextWgr, 0)
      ensures nextWgr <= totalSize && (nextWgr == old(nextWgr) + numWgs ||
              (nextWgr == totalSize < old(nextWgr) + numWgs))
      ensures wgrsInTheWild == old(wgrsInTheWild) + 1
    {
      var startCoord := nextWgr;
      var wgsToCarve;
      if nextWgr + numWgs > totalSize - 1 {
        wgsToCarve := totalSize - nextWgr;
      } else {
        wgsToCarve := numWgs;
      }
      nextWgr := nextWgr + wgsToCarve;
      wgrsInTheWild := wgrsInTheWild + 1;
      wgr := WorkGroupRange(this, startCoord, startCoord + wgsToCarve, 0);
    }

    /** One of this NDRange's ranges has finished. With the last one the event completes and the
        object deletes itself. */
    method DecrementWgrsCounter()
      requires !destroyed && wgrsInTheWild > 0
      modifies this`wgrsInTheWild, this`destroyed, event
      ensures wgrsInTheWild == old(wgrsInTheWild) - 1
      ensures destroyed == (wgrsInTheWild == 0)
      ensures destroyed ==> event.state == Complete && event.completions == old(event.completions) + 1
      ensures !destroyed ==> event.state == old(event.state) && event.completions == old(event.completions)
    {
      wgrsInTheWild := wgrsInTheWild - 1;
      if wgrsInTheWild == 0 {
        event.SetAsComplete();
        destroyed := true;
      }
    }
  }
}
