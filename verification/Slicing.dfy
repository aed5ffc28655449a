/** Quantum-bounded round robin over NDRanges (cpp/algo_slicing.cc): the choice of a scheduler, and
    the carving of one slice per callback. */
module Slicing {
  import opened NDRanges
  import opened Scheduling

  const WORD: int := 0x1_0000_0000
  const RING_CAPACITY: nat := 10  // CircArray's default

  /** What the resource check and the cost tracker answer about each scheduler for one kernel. The
      reconfiguration cost is 0 where the scheduler needs none. */
  datatype Offer = Offer(suitable: bool, wgCost: int, reconfCost: int)

  ghost predicate OffersFor(offers: seq<Offer>, n: nat) {
    |offers| == n && forall i :: 0 <= i < n ==> 0 < offers[i].wgCost < 0x8000_0000 && 0 <= offers[i].reconfCost < WORD
  }

  /** Work-groups that fit the quantum, in the source's unsigned arithmetic. */
  function NumWgs(o: Offer, quant: int): (n: int)
    requires o.wgCost > 0
  {
    (quant - o.reconfCost) % WORD / o.wgCost
  }

  function TotalCost(o: Offer, quant: int): int
    requires o.wgCost > 0
  {
    (o.reconfCost + NumWgs(o, quant) * o.wgCost) % WORD
  }

  predicate Candidate(o: Offer, quant: int)
    requires o.wgCost > 0
  {
    o.suitable && NumWgs(o, quant) != 0
  }

  /** More work-groups, or as many for less. */
  ghost predicate Better(a: Offer, b: Offer, quant: int)
    requires a.wgCost > 0 && b.wgCost > 0
  {
    NumWgs(a, quant) > NumWgs(b, quant) || (NumWgs(a, quant) == NumWgs(b, quant) &&
      TotalCost(a, quant) < TotalCost(b, quant))
  }

  lemma DivBounds(x: int, d: int)
    requires x >= 0 && d > 0
    ensures var q := x / d; 0 <= q <= x && q * d <= x < q * d + d
  {
    var q := x / d;
    assert x == q * d + x % d;
    AtLeastOnce(q, d);
  }

  lemma {:induction false} AtLeastOnce(q: int, d: int)
    requires q >= 0 && d >= 1
    ensures q * d >= q
  {
    if q > 0 {
      AtLeastOnce(q - 1, d);
      assert q * d == (q - 1) * d + d;
    }
  }

  /** What is counted as fitting the quantum does fit it, together with the reconfiguration, if and
      only if the reconfiguration alone does; otherwise the time left wraps around. */
  lemma FitsIffReconfFits(o: Offer, quant: int)
    requires 0 < o.wgCost && 0 <= o.reconfCost < WORD && 0 <= quant < WORD
    requires Candidate(o, quant)
    ensures o.reconfCost + NumWgs(o, quant) * o.wgCost <= quant <==> o.reconfCost <= quant
    ensures o.reconfCost <= quant ==>
              TotalCost(o, quant) == o.reconfCost + NumWgs(o, quant) * o.wgCost && 1 <= NumWgs(o, quant) <= quant &&
              quant < o.reconfCost + (NumWgs(o, quant) + 1) * o.wgCost
  {
    var left := (quant - o.reconfCost) % WORD;
    var n := NumWgs(o, quant);
    DivBounds(left, o.wgCost);
    assert (n + 1) * o.wgCost == n * o.wgCost + o.wgCost;
    assert n * o.wgCost >= n * 0;
  }

  /** For one: with a quantum of 30 and a reconfiguration cost of 1000, over four million work-groups
      of cost 1000 are found to fit. */
  lemma ReconfAboveQuantum()
    ensures var o := Offer(true, 1000, 1000); Candidate(o, 30) && NumWgs(o, 30) == 4294966 && o.reconfCost > 30
  {
  }

  ghost predicate NoneFor(free: seq<nat>, offers: seq<Offer>, quant: int) {
    forall p :: 0 <= p < |free| && free[p] < |offers| && offers[free[p]].wgCost > 0 ==>
      !Candidate(offers[free[p]], quant)
  }

  /** idx is a candidate, no candidate is better, and every candidate before it in the ring is worse. */
  ghost predicate BestFor(idx: int, free: seq<nat>, offers: seq<Offer>, quant: int) {
    0 <= idx < |offers| && offers[idx].wgCost > 0 && Candidate(offers[idx], quant) &&
    exists p :: 0 <= p < |free| && free[p] == idx &&
      forall q ::
        0 <= q < |free| && free[q] < |offers| && offers[free[q]].wgCost > 0 && Candidate(offers[free[q]], quant) ==>
        !Better(offers[free[q]], offers[idx], quant) && (q < p ==> Better(offers[idx], offers[free[q]], quant))
  }

  /** The count of work-groups does not fit the signed integer that keeps the best one so far. */
  ghost predicate Wraps(id: nat, offers: seq<Offer>, quant: int) {
    id < |offers| && offers[id].wgCost > 0 && Candidate(offers[id], quant) && NumWgs(offers[id], quant) >= 0x8000_0000
  }

  /** The schedulers of the ring that matter: those behind the last one whose count wraps around. */
  ghost function Considered(free: seq<nat>, offers: seq<Offer>, quant: int): seq<nat> {
    if free == [] then []
    else
      var n := |free| - 1;
      if Wraps(free[n], offers, quant) then [] else Considered(free[..n], offers, quant) + [free[n]]
  }

  lemma {:induction false} ConsideredMembers(free: seq<nat>, offers: seq<Offer>, quant: int)
    ensures forall id :: id in Considered(free, offers, quant) ==> id in free && !Wraps(id, offers, quant)
    decreases |free|
  {
    hide Wraps;
    if free != [] {
      var n := |free| - 1;
      ConsideredMembers(free[..n], offers, quant);
      assert free == free[..n] + [free[n]];
    }
  }

  /** The whole ring matters if and only if no count wraps around; one that does hides itself and all
      before it. */
  lemma {:induction false} AllConsideredIff(free: seq<nat>, offers: seq<Offer>, quant: int)
    ensures Considered(free, offers, quant) == free <==>
            forall p :: 0 <= p < |free| ==> !Wraps(free[p], offers, quant)
    ensures |Considered(free, offers, quant)| <= |free|
    decreases |free|
  {
    hide Wraps;
    if free != [] {
      var n := |free| - 1;
      AllConsideredIff(free[..n], offers, quant);
      assert free == free[..n] + [free[n]];
      var before := Considered(free[..n], offers, quant);
      assert before + [free[n]] == free <==> before == free[..n] by {
        assert (before + [free[n]])[..|before|] == before;
      }
    }
  }

  /** The best one considered is the best of all free schedulers if and only if no count wraps around:
      a scheduler whose count does is itself better than any considered one. */
  lemma BestOfAllIff(idx: int, free: seq<nat>, offers: seq<Offer>, quant: int)
    requires BestFor(idx, Considered(free, offers, quant), offers, quant)
    ensures BestFor(idx, free, offers, quant) <==> forall p :: 0 <= p < |free| ==> !Wraps(free[p], offers, quant)
  {
    hide NumWgs, TotalCost;
    ConsideredMembers(free, offers, quant);
    AllConsideredIff(free, offers, quant);
    assert !Wraps(idx, offers, quant);
  }

  /** Likewise, that nobody is reported means that there is nobody if and only if no count wraps. */
  lemma NobodyAtAllIff(free: seq<nat>, offers: seq<Offer>, quant: int)
    requires NoneFor(Considered(free, offers, quant), offers, quant)
    ensures NoneFor(free, offers, quant) <==> forall p :: 0 <= p < |free| ==> !Wraps(free[p], offers, quant)
  {
    hide NumWgs, TotalCost;
    AllConsideredIff(free, offers, quant);
  }

  /** No count wraps around while no reconfiguration exceeds a quantum below 2^31. */
  lemma SmallQuantumFits(free: seq<nat>, offers: seq<Offer>, quant: int)
    requires OffersFor(offers, |offers|) && 0 <= quant < 0x8000_0000
    requires forall i :: 0 <= i < |offers| ==> offers[i].reconfCost <= quant
    ensures Considered(free, offers, quant) == free
  {
    forall id | 0 <= id < |offers|
      ensures !Wraps(id, offers, quant)
    {
      DivBounds((quant - offers[id].reconfCost) % WORD, offers[id].wgCost);
    }
    AllConsideredIff(free, offers, quant);
  }

  /** For one: the only free scheduler, with a quantum of 30, a reconfiguration cost of 1000 and
      work-groups of cost 1, is a candidate that is not even considered. */
  lemma OnlyCandidateHidden()
    ensures var offers := [Offer(true, 1, 1000)];
            Candidate(offers[0], 30) && Considered([0], offers, 30) == [] && NoneFor([], offers, 30)
  {
    assert Wraps(0, [Offer(true, 1, 1000)], 30);
  }

  lemma OneMoreConsidered(free: seq<nat>, i: nat, offers: seq<Offer>, quant: int)
    requires i < |free|
    ensures Considered(free[..i + 1], offers, quant) ==
            if Wraps(free[i], offers, quant) then [] else Considered(free[..i], offers, quant) + [free[i]]
  {
    hide Wraps;
    assert free[..i + 1][..i] == free[..i];
  }

  /** What has been chosen among the schedulers considered so far, if any. */
  ghost predicate Leading(list: seq<nat>, at: nat, chosen: nat, offers: seq<Offer>, quant: int) {
    at < |list| && list[at] == chosen < |offers| && offers[chosen].wgCost > 0 && Candidate(offers[chosen], quant) &&
    forall q ::
      0 <= q < |list| && list[q] < |offers| && offers[list[q]].wgCost > 0 && Candidate(offers[list[q]], quant) ==>
      !Better(offers[list[q]], offers[chosen], quant) && (q < at ==> Better(offers[chosen], offers[list[q]], quant))
  }

  lemma LeadingIsBest(list: seq<nat>, at: nat, chosen: nat, offers: seq<Offer>, quant: int)
    requires Leading(list, at, chosen, offers, quant)
    ensures BestFor(chosen, list, offers, quant) && !NoneFor(list, offers, quant)
  {
    hide Better, Candidate;
  }

  /** A scheduler that is no candidate, or no better, changes nothing. */
  lemma StillLeading(list: seq<nat>, at: nat, chosen: nat, id: nat, offers: seq<Offer>, quant: int)
    requires Leading(list, at, chosen, offers, quant) && id < |offers| && offers[id].wgCost > 0
    requires Candidate(offers[id], quant) ==> !Better(offers[id], offers[chosen], quant)
    ensures Leading(list + [id], at, chosen, offers, quant)
  {
    hide Better, Candidate;
  }

  lemma StillNone(list: seq<nat>, id: nat, offers: seq<Offer>, quant: int)
    requires NoneFor(list, offers, quant) && id < |offers| && offers[id].wgCost > 0 && !Candidate(offers[id], quant)
    ensures NoneFor(list + [id], offers, quant)
  {
    hide Candidate;
  }

  lemma NowLeading(list: seq<nat>, at: nat, chosen: nat, id: nat, offers: seq<Offer>, quant: int)
    requires id < |offers| && offers[id].wgCost > 0 && Candidate(offers[id], quant)
    requires NoneFor(list, offers, quant) ||
             (Leading(list, at, chosen, offers, quant) && Better(offers[id], offers[chosen], quant))
    ensures Leading(list + [id], |list|, id, offers, quant)
  {
    hide Candidate, NumWgs, TotalCost;
  }

  /** -1 when no considered scheduler can take any work-groups; otherwise the first of the best ones
      of those. */
  method SelectBestScheduler(free: seq<nat>, offers: seq<Offer>, quant: int)
    returns (idx: int, wgs: int, wgCost: int, reconfCost: int)
    requires OffersFor(offers, |offers|) && 0 <= quant < WORD
    requires forall p :: 0 <= p < |free| ==> free[p] < |offers|
    ensures idx >= -1 && (idx == -1 <==> NoneFor(Considered(free, offers, quant), offers, quant))
    ensures idx != -1 ==> BestFor(idx, Considered(free, offers, quant), offers, quant) &&
                          wgs == NumWgs(offers[idx], quant) && wgCost == offers[idx].wgCost &&
                          reconfCost == offers[idx].reconfCost
  {
    hide NumWgs, TotalCost, Considered, Leading, NoneFor, BestFor, OffersFor;
    var chosen: nat := 0;
    var maxWgs: int := -1;  // a signed integer: a count of 2^31 or more makes it negative
    var chosenTotalCost: int := 0;
    wgs, wgCost, reconfCost := 0, 0, 0;
    ghost var at: nat := 0;
    var i := 0;
    NoneYet(free, offers, quant);
    while i < |free|
      invariant 0 <= i <= |free|
      invariant maxWgs < 0 ==> NoneFor(Considered(free[..i], offers, quant), offers, quant)
      invariant maxWgs >= 0 ==> Leading(Considered(free[..i], offers, quant), at, chosen, offers, quant)
      invariant maxWgs >= 0 ==> chosen < |offers| && offers[chosen].wgCost > 0
      invariant maxWgs >= 0 ==> maxWgs == NumWgs(offers[chosen], quant) < 0x8000_0000
      invariant maxWgs >= 0 ==> chosenTotalCost == TotalCost(offers[chosen], quant)
      invariant maxWgs >= 0 ==> wgCost == offers[chosen].wgCost && reconfCost == offers[chosen].reconfCost
    {
      ghost var list := Considered(free[..i], offers, quant);
      var o := offers[free[i]];
      OfferCosts(offers, free[i]);
      NumNotNegative(o, quant);
      OneMoreConsidered(free, i, offers, quant);
      var numWgs := NumWgs(o, quant);
      if o.suitable && numWgs != 0 {
        var totalCost := TotalCost(o, quant);
        if maxWgs < 0 || numWgs > maxWgs || (numWgs == maxWgs && totalCost < chosenTotalCost) {
          if numWgs < 0x8000_0000 {
            NowLeading(list, at, chosen, free[i], offers, quant);
          } else {
            NothingConsidered(offers, quant);
          }
          maxWgs := if numWgs < 0x8000_0000 then numWgs else numWgs - WORD;
          chosen := free[i];
          reconfCost := o.reconfCost;
          wgCost := o.wgCost;
          chosenTotalCost := totalCost;
          at := |list|;
        } else {
          StillLeading(list, at, chosen, free[i], offers, quant);
        }
      } else if maxWgs < 0 {
        StillNone(list, free[i], offers, quant);
      } else {
        StillLeading(list, at, chosen, free[i], offers, quant);
      }
      i := i + 1;
    }
    assert free[..i] == free;
    if maxWgs < 0 {
      return -1, 0, 0, 0;
    }
    LeadingIsBest(Considered(free, offers, quant), at, chosen, offers, quant);
    idx, wgs := chosen, maxWgs;
  }

  lemma NothingConsidered(offers: seq<Offer>, quant: int)
    ensures NoneFor([], offers, quant)
  {
  }

  lemma NoneYet(free: seq<nat>, offers: seq<Offer>, quant: int)
    ensures NoneFor(Considered(free[..0], offers, quant), offers, quant)
  {
    assert free[..0] == [];
  }

  lemma OfferCosts(offers: seq<Offer>, id: nat)
    requires OffersFor(offers, |offers|) && id < |offers|
    ensures 0 < offers[id].wgCost < 0x8000_0000 && 0 <= offers[id].reconfCost < WORD
  {
  }

  lemma NumNotNegative(o: Offer, quant: int)
    requires o.wgCost > 0
    ensures 0 <= NumWgs(o, quant) < WORD
  {
    DivBounds((quant - o.reconfCost) % WORD, o.wgCost);
  }

  ghost predicate NobodyFor(free: seq<nat>, offers: seq<Offer>, quant: int) {
    NoneFor(Considered(free, offers, quant), offers, quant)
  }

  ghost predicate ChosenFor(idx: int, free: seq<nat>, offers: seq<Offer>, quant: int) {
    BestFor(idx, Considered(free, offers, quant), offers, quant)
  }

  // ---------- What fits ----------

  /** k work-groups, behind the reconfiguration, take no longer than the limit. */
  predicate Fits(o: Offer, k: nat, limit: int) {
    o.suitable && o.reconfCost + k * o.wgCost <= limit
  }

  ghost predicate SomeFits(free: seq<nat>, offers: seq<Offer>, limit: int) {
    exists p :: 0 <= p < |free| && free[p] < |offers| && Fits(offers[free[p]], 1, limit)
  }

  lemma {:induction false} FewerCostLess(k: nat, n: nat, c: int)
    requires c >= 0 && k <= n
    ensures k * c <= n * c
  {
    if k < n {
      FewerCostLess(k, n - 1, c);
      assert n * c == (n - 1) * c + c;
    }
  }

  /** The count of work-groups is the largest that fits a quantum not below the reconfiguration. */
  lemma FitsUpTo(o: Offer, quant: int, k: nat)
    requires o.wgCost > 0 && 0 <= o.reconfCost <= quant < WORD && o.suitable
    ensures 0 <= NumWgs(o, quant) && (Fits(o, k, quant) <==> k <= NumWgs(o, quant))
  {
    var left, n := (quant - o.reconfCost) % WORD, NumWgs(o, quant);
    DivBounds(left, o.wgCost);
    if k <= n {
      FewerCostLess(k, n, o.wgCost);
    } else {
      FewerCostLess(n + 1, k, o.wgCost);
      assert (n + 1) * o.wgCost == n * o.wgCost + o.wgCost;
    }
  }

  /** With no reconfiguration above a quantum below 2^31: nobody is found exactly if no free scheduler
      can do even one work-group in that time. */
  lemma NobodyIffNoneFits(free: seq<nat>, offers: seq<Offer>, quant: int)
    requires OffersFor(offers, |offers|) && 0 <= quant < 0x8000_0000
    requires forall i :: 0 <= i < |offers| ==> offers[i].reconfCost <= quant
    ensures NobodyFor(free, offers, quant) <==> !SomeFits(free, offers, quant)
  {
    hide NumWgs, Fits;
    SmallQuantumFits(free, offers, quant);
    forall i | 0 <= i < |offers|
      ensures Candidate(offers[i], quant) <==> Fits(offers[i], 1, quant)
    {
      if offers[i].suitable {
        FitsUpTo(offers[i], quant, 1);
      } else {
        NotSuitable(offers[i], 1, quant);
      }
    }
  }

  lemma NotSuitable(o: Offer, k: nat, limit: int)
    requires !o.suitable
    ensures !Fits(o, k, limit)
  {
  }

  /** Of those in the ring that can do n work-groups, idx does them at the least cost, and is the first
      that does. */
  ghost predicate FirstCheapest(idx: int, n: nat, free: seq<nat>, offers: seq<Offer>, limit: int) {
    0 <= idx < |offers| && exists at :: CheapestAt(at, idx, n, free, offers, limit)
  }

  ghost predicate CheapestAt(at: int, idx: nat, n: nat, free: seq<nat>, offers: seq<Offer>, limit: int)
    requires idx < |offers|
  {
    0 <= at < |free| && free[at] == idx &&
    forall p :: 0 <= p < |free| && free[p] < |offers| && Fits(offers[free[p]], n, limit) ==>
      if p < at then CostOf(offers[idx], n) < CostOf(offers[free[p]], n)
      else CostOf(offers[idx], n) <= CostOf(offers[free[p]], n)
  }

  function CostOf(o: Offer, n: nat): int {
    o.reconfCost + n * o.wgCost
  }

  lemma TotalIsCost(o: Offer, quant: int)
    requires 0 < o.wgCost && 0 <= o.reconfCost <= quant < WORD && Candidate(o, quant)
    ensures NumWgs(o, quant) >= 1 && TotalCost(o, quant) == CostOf(o, NumWgs(o, quant))
  {
    FitsIffReconfFits(o, quant);
  }

  lemma ChosenIsFirstCheapest(idx: int, free: seq<nat>, offers: seq<Offer>, quant: int)
    requires OffersFor(offers, |offers|) && 0 <= quant < 0x8000_0000
    requires forall i :: 0 <= i < |offers| ==> offers[i].reconfCost <= quant
    requires BestFor(idx, free, offers, quant)
    ensures NumWgs(offers[idx], quant) >= 1 && FirstCheapest(idx, NumWgs(offers[idx], quant), free, offers, quant)
  {
    hide NumWgs, TotalCost, Fits, CostOf;
    TotalIsCost(offers[idx], quant);
    var n := NumWgs(offers[idx], quant);
    forall p | 0 <= p < |free| && free[p] < |offers| && Fits(offers[free[p]], n, quant)
      ensures Candidate(offers[free[p]], quant) && NumWgs(offers[free[p]], quant) >= n
      ensures TotalCost(offers[free[p]], quant) == CostOf(offers[free[p]], NumWgs(offers[free[p]], quant))
    {
      var o := offers[free[p]];
      if o.suitable {
        FitsUpTo(o, quant, n);
        TotalIsCost(o, quant);
      } else {
        NotSuitable(o, n, quant);
      }
    }
    var at :| 0 <= at < |free| && free[at] == idx &&
      forall q ::
        0 <= q < |free| && free[q] < |offers| && offers[free[q]].wgCost > 0 && Candidate(offers[free[q]], quant) ==>
        !Better(offers[free[q]], offers[idx], quant) && (q < at ==> Better(offers[idx], offers[free[q]], quant));
    assert CheapestAt(at, idx, n, free, offers, quant);
  }

  /** Whoever is chosen can do as many work-groups in that time as any free scheduler can. */
  lemma ChosenDoesMost(idx: int, free: seq<nat>, offers: seq<Offer>, quant: int)
    requires OffersFor(offers, |offers|) && 0 <= quant < 0x8000_0000
    requires forall i :: 0 <= i < |offers| ==> offers[i].reconfCost <= quant
    requires ChosenFor(idx, free, offers, quant)
    ensures 0 <= idx < |offers| && idx in free && NumWgs(offers[idx], quant) >= 1
    ensures Fits(offers[idx], NumWgs(offers[idx], quant), quant)
    ensures forall p, k: nat :: 0 <= p < |free| && free[p] < |offers| && Fits(offers[free[p]], k, quant) ==>
              k <= NumWgs(offers[idx], quant)
    ensures FirstCheapest(idx, NumWgs(offers[idx], quant), free, offers, quant)
  {
    hide NumWgs, TotalCost, Fits, FirstCheapest;
    SmallQuantumFits(free, offers, quant);
    ChosenIsFirstCheapest(idx, free, offers, quant);
    FitsUpTo(offers[idx], quant, if NumWgs(offers[idx], quant) >= 0 then NumWgs(offers[idx], quant) else 0);
    forall p, k: nat | 0 <= p < |free| && free[p] < |offers| && Fits(offers[free[p]], k, quant)
      ensures k <= NumWgs(offers[idx], quant)
    {
      var o := offers[free[p]];
      if o.suitable {
        FitsUpTo(o, quant, k);
        assert k > 0 ==> Candidate(o, quant);
      } else {
        NotSuitable(o, k, quant);
      }
    }
  }

  // ---------- Carving in turns ----------

  /** The ranges cut from nd so far: consecutive, none empty, from 0 to where the next one starts. */
  ghost predicate Consecutive(ranges: seq<WorkGroupRange>, nd: NDRange, end: nat) {
    if ranges == [] then end == 0
    else
      var last := ranges[|ranges| - 1];
      last.parent == nd && last.start < last.end == end && Consecutive(ranges[..|ranges| - 1], nd, last.start)
  }

  /** Consecutive ranges are disjoint and cover every work-group before the end. */
  lemma {:induction false} ConsecutiveCovers(ranges: seq<WorkGroupRange>, nd: NDRange, end: nat, g: nat)
    requires Consecutive(ranges, nd, end)
    ensures g < end <==> exists i :: 0 <= i < |ranges| && ranges[i].start <= g < ranges[i].end
    ensures forall i, j :: 0 <= i < j < |ranges| ==> ranges[i].end <= ranges[j].start
    ensures forall i :: 0 <= i < |ranges| ==> ranges[i].parent == nd && ranges[i].start < ranges[i].end <= end
    decreases |ranges|
  {
    if ranges != [] {
      var n := |ranges| - 1;
      var init := ranges[..n];
      assert forall i :: 0 <= i < n ==> init[i] == ranges[i];
      ConsecutiveCovers(init, nd, ranges[n].start, g);
      if g < ranges[n].start {
        var i :| 0 <= i < n && init[i].start <= g < init[i].end;
        assert ranges[i].start <= g < ranges[i].end;
      }
    }
  }

  lemma OneMoreRange(ranges: seq<WorkGroupRange>, nd: NDRange, w: WorkGroupRange)
    requires Consecutive(ranges, nd, w.start) && w.parent == nd && w.start < w.end
    ensures Consecutive(ranges + [w], nd, w.end)
  {
    assert (ranges + [w])[..|ranges|] == ranges;
  }

  class AlgoSlicing {
    var ndranges: seq<NDRange>  // the ring, front first
    const minQuant: int
    const maxIdleThreshold: int
    ghost var carved: map<NDRange, seq<WorkGroupRange>>  // every NDRange ever accepted, with its ranges

    /** An NDRange is in the ring, once, exactly while some of its work-groups are not carved. */
    ghost predicate Valid()
      reads this, carved.Keys
    {
      |ndranges| <= RING_CAPACITY && 0 <= minQuant < WORD && 0 <= maxIdleThreshold < WORD &&
      (forall i, j :: 0 <= i < j < |ndranges| ==> ndranges[i] != ndranges[j]) &&
      (forall nd :: nd in ndranges ==> nd in carved) &&
      forall nd :: nd in carved ==> CarvedWell(nd)
    }

    ghost predicate CarvedWell(nd: NDRange)
      requires nd in carved
      reads this, nd
    {
      Consecutive(carved[nd], nd, nd.nextWgr) && 1 <= nd.totalSize && nd.nextWgr <= nd.totalSize &&
      (nd in ndranges <==> nd.nextWgr < nd.totalSize)
    }

    constructor (minQuant: int, maxIdleThreshold: int)
      requires 0 <= minQuant < WORD && 0 <= maxIdleThreshold < WORD
      ensures Valid() && ndranges == [] && carved == map[]
      ensures this.minQuant == minQuant && this.maxIdleThreshold == maxIdleThreshold
    {
      ndranges := [];
      carved := map[];
      this.minQuant := minQuant;
      this.maxIdleThreshold := maxIdleThreshold;
    }

    /** Refused exactly when the ring is full. */
    method RouteNdrange(nd: NDRange) returns (accepted: bool)
      requires Valid() && nd !in carved && nd.nextWgr == 0 && nd.totalSize >= 1
      modifies this
      ensures Valid() && accepted == (|old(ndranges)| < RING_CAPACITY)
      ensures ndranges == (if accepted then [nd] else []) + old(ndranges)
      ensures carved == if accepted then old(carved)[nd := []] else old(carved)
    {
      if |ndranges| == RING_CAPACITY {
        return false;
      }
      ndranges := [nd] + ndranges;
      carved := carved[nd := []];
      return true;
    }

    /** The slice cut for the scheduler chosen with the given quantum. */
    ghost predicate Slice(w: WorkGroupRange, nd: NDRange, start: nat, o: Offer, quant: int)
      requires o.wgCost > 0
    {
      w.parent == nd && w.start == start &&
      w.end == (if start + NumWgs(o, quant) <= nd.totalSize then start + NumWgs(o, quant) else nd.totalSize) &&
      w.executionCost == w.end * o.wgCost + o.reconfCost
    }

    /** The quantum is tried first, then the larger one if there is a threshold. */
    function Quantum(second: bool): int
    {
      if second then minQuant * maxIdleThreshold % WORD else minQuant
    }

    /** No scheduler, or the best one for the first quantum that has any, with its slice. */
    ghost predicate Outcome(chosen: int, slices: seq<WorkGroupRange>, nd: NDRange, offers: seq<Offer>, start: nat,
                            free: seq<nat>) {
      if chosen == -1 then
        slices == [] && NobodyFor(free, offers, Quantum(false)) &&
          (maxIdleThreshold != 0 ==> NobodyFor(free, offers, Quantum(true)))
      else
        exists second :: ChosenWith(second, chosen, slices, nd, offers, start, free)
    }

    ghost predicate ChosenWith(second: bool, chosen: int, slices: seq<WorkGroupRange>, nd: NDRange,
                               offers: seq<Offer>, start: nat,
                               free: seq<nat>)
    {
      (second ==> maxIdleThreshold != 0 && NobodyFor(free, offers, Quantum(false))) &&
      ChosenFor(chosen, free, offers, Quantum(second)) &&
      |slices| == 1 && Slice(slices[0], nd, start, offers[chosen], Quantum(second))
    }

    /** What a turn comes to in terms of time, with no reconfiguration above the quantum: an idle
        scheduler is chosen exactly if one of them can do a work-group within the quantum, or within
        the quantum times the threshold if there is one. The larger limit counts only if nobody can do
        one within the smaller, and the slice is as many work-groups as any idle scheduler can do within
        the limit that counts. */
    lemma TurnInTime(chosen: int, slices: seq<WorkGroupRange>, nd: NDRange, offers: seq<Offer>, start: nat,
                     free: seq<nat>)
      requires Outcome(chosen, slices, nd, offers, start, free) && OffersFor(offers, |offers|)
      requires minQuant >= 0 && maxIdleThreshold >= 0
      requires minQuant < 0x8000_0000 && minQuant * maxIdleThreshold < 0x8000_0000
      requires forall i :: 0 <= i < |offers| ==> offers[i].reconfCost <= minQuant
      ensures chosen == -1 <==>
              !SomeFits(free, offers, minQuant) &&
              (maxIdleThreshold != 0 ==> !SomeFits(free, offers, minQuant * maxIdleThreshold))
      ensures chosen != -1 ==>
              var limit := if SomeFits(free, offers, minQuant) then minQuant else minQuant * maxIdleThreshold;
              0 <= chosen < |offers| && chosen in free && |slices| == 1 &&
              exists n: nat :: n >= 1 && Fits(offers[chosen], n, limit) &&
                slices[0].start == start && slices[0].end ==
                  (if start + n <= nd.totalSize then start + n else nd.totalSize) &&
                FirstCheapest(chosen, n, free, offers, limit) &&
                forall p, k: nat :: 0 <= p < |free| && free[p] < |offers| && Fits(offers[free[p]], k, limit) ==> k <= n
    {
      hide NumWgs, NobodyFor, ChosenFor, SomeFits, Fits, FirstCheapest;
      LargerQuantum();
      NobodyIffNoneFits(free, offers, minQuant);
      if maxIdleThreshold != 0 {
        NobodyIffNoneFits(free, offers, minQuant * maxIdleThreshold);
      }
      if chosen != -1 {
        var second :| ChosenWith(second, chosen, slices, nd, offers, start, free);
        ChosenIsSomebody(chosen, free, offers, Quantum(second));
        ChosenDoesMost(chosen, free, offers, Quantum(second));
      }
    }

    lemma LargerQuantum()
      requires minQuant >= 0 && maxIdleThreshold >= 0
      requires minQuant * maxIdleThreshold < 0x8000_0000
      ensures minQuant * maxIdleThreshold >= 0
      ensures maxIdleThreshold != 0 ==> Quantum(true) == minQuant * maxIdleThreshold >= minQuant
    {
      FewerCostLess(0, minQuant, maxIdleThreshold);
      if maxIdleThreshold != 0 {
        FewerCostLess(1, maxIdleThreshold, minQuant);
      }
    }

    lemma ChosenIsSomebody(chosen: int, free: seq<nat>, offers: seq<Offer>, quant: int)
      requires ChosenFor(chosen, free, offers, quant)
      ensures !NobodyFor(free, offers, quant) && 0 <= chosen
    {
      hide NumWgs, TotalCost, Considered;
    }

    /** Tries the quantum, and then, if there is a threshold, the larger one. */
    method Choose(free: seq<nat>, offers: seq<Offer>)
      returns (idx: int, wgs: int, wgCost: int, reconfCost: int, ghost second: bool)
      requires 0 <= minQuant < WORD && OffersFor(offers, |offers|)
      requires forall p :: 0 <= p < |free| ==> free[p] < |offers|
      ensures idx >= -1
      ensures idx == -1 ==>
              NobodyFor(free, offers, Quantum(false)) &&
              (maxIdleThreshold != 0 ==> NobodyFor(free, offers, Quantum(true)))
      ensures idx != -1 ==> (second ==> maxIdleThreshold != 0 && NobodyFor(free, offers, Quantum(false))) &&
                            ChosenFor(idx, free, offers, Quantum(second)) &&
                              wgs == NumWgs(offers[idx], Quantum(second)) &&
                            wgCost == offers[idx].wgCost && reconfCost == offers[idx].reconfCost
    {
      hide NumWgs, NoneFor, BestFor, Considered;
      second := false;
      idx, wgs, wgCost, reconfCost := SelectBestScheduler(free, offers, minQuant);
      if idx == -1 && maxIdleThreshold != 0 {
        second := true;
        idx, wgs, wgCost, reconfCost := SelectBestScheduler(free, offers, minQuant * maxIdleThreshold % WORD);
      }
    }

    lemma BestIsFree(idx: int, free: seq<nat>, offers: seq<Offer>, quant: int)
      requires ChosenFor(idx, free, offers, quant)
      ensures idx in free && 0 <= idx < |offers| && offers[idx].wgCost > 0 && NumWgs(offers[idx], quant) >= 1
    {
      ConsideredMembers(free, offers, quant);
      NumNotNegative(offers[idx], quant);
    }

    lemma FreeAreIndices(layer: Layer)
      requires layer.SchedulersValid() && forall i :: 0 <= i < |layer.schedulers| ==> layer.schedulers[i].id == i
      ensures forall p :: 0 <= p < |layer.manager.freeSchedulers| ==>
                layer.manager.freeSchedulers[p] < |layer.schedulers| &&
                  layer.Queues()[layer.manager.freeSchedulers[p]] == []
    {
      forall p | 0 <= p < |layer.manager.freeSchedulers|
        ensures layer.manager.freeSchedulers[p] < |layer.schedulers| &&
                layer.Queues()[layer.manager.freeSchedulers[p]] == []
      {
        var id := layer.manager.freeSchedulers[p];
        assert id in layer.manager.freeSchedulers && id in Ids(layer.schedulers);
      }
    }

    /** Cuts the slice and submits it to the free scheduler idx, whose queue has room for it. */
    method CutSlice(nd: NDRange, layer: Layer, idx: nat, wgs: nat, wgCost: nat, reconfCost: nat)
        returns (wgr: WorkGroupRange)
      requires layer.SchedulersValid() && idx < |layer.schedulers| && layer.Queues()[idx] == []
      requires !nd.destroyed && nd.nextWgr <= nd.totalSize && nd.totalSize >= 1
      modifies nd, layer.schedulers, layer.manager
      ensures layer.SchedulersValid() && layer.Queues() == old(layer.Queues())[idx := [wgr]]
      ensures wgr.parent == nd && wgr.start == old(nd.nextWgr) && wgr.end == nd.nextWgr &&
              wgr.executionCost == wgr.end * wgCost + reconfCost
      ensures nd.nextWgr == if old(nd.nextWgr) + wgs <= nd.totalSize then old(nd.nextWgr) + wgs else nd.totalSize
      ensures nd.wgrsInTheWild == old(nd.wgrsInTheWild) + 1 && !nd.destroyed
    {
      hide Layer.SchedulersValid, Layer.Queues;
      wgr := nd.CarveWgs(wgs);
      wgr := wgr.(executionCost := wgr.end * wgCost + reconfCost);
      assert Enqueued([], wgr) == [wgr];
      layer.Submit(idx, wgr);
    }

    /** The ring after its front has had its turn. */
    lemma Turned(was: seq<NDRange>, more: bool)
      requires was != [] && ndranges == was[1..] + (if more then [was[0]] else [])
      requires forall i, j :: 0 <= i < j < |was| ==> was[i] != was[j]
      ensures forall i, j :: 0 <= i < j < |ndranges| ==> ndranges[i] != ndranges[j]
      ensures forall md :: md in ndranges <==> md in was && (md == was[0] ==> more)
    {
      assert was == [was[0]] + was[1..];
      assert forall i :: 0 <= i < |was| - 1 ==> ndranges[i] == was[i + 1];
    }

    /** The turn of one NDRange: nothing, or a slice on the best free scheduler. */
    method Turn(nd: NDRange, ghost ranges: seq<WorkGroupRange>, layer: Layer, offers: seq<Offer>)
      returns (chosen: int, ghost slices: seq<WorkGroupRange>)
      requires 0 <= minQuant < WORD && layer.SchedulersValid() && OffersFor(offers, |layer.schedulers|)
      requires forall i :: 0 <= i < |layer.schedulers| ==> layer.schedulers[i].id == i
      requires !nd.destroyed && nd.nextWgr < nd.totalSize && Consecutive(ranges, nd, nd.nextWgr)
      modifies nd, layer.schedulers, layer.manager
      ensures layer.SchedulersValid()
      ensures nd.nextWgr <= nd.totalSize && Consecutive(ranges + slices, nd, nd.nextWgr)
      ensures Outcome(chosen, slices, nd, offers, old(nd.nextWgr), old(layer.manager.freeSchedulers))
      ensures chosen == -1 ==> layer.Queues() == old(layer.Queues()) && nd.nextWgr == old(nd.nextWgr) && slices == []
      ensures chosen != -1 ==>
              0 <= chosen < |layer.schedulers| && old(layer.Queues())[chosen] == [] &&
              layer.Queues() == old(layer.Queues())[chosen := slices]
      ensures TookTurn(nd, old(nd.wgrsInTheWild), slices)
    {
      hide Layer.SchedulersValid, Layer.Queues, NoneFor, BestFor, Considered, Consecutive, NumWgs;
      ghost var free := layer.manager.freeSchedulers;
      FreeAreIndices(layer);
      var idx, wgs, wgCost, reconfCost, second := Choose(layer.manager.freeSchedulers, offers);
      chosen, slices := idx, [];
      if idx < 0 {
        assert ranges + [] == ranges;
        return;
      }
      BestIsFree(idx, free, offers, Quantum(second));
      var wgr := CutSlice(nd, layer, idx, wgs, wgCost, reconfCost);
      slices := [wgr];
      assert ChosenWith(second, chosen, slices, nd, offers, wgr.start, free);
      OneMoreRange(ranges, nd, wgr);
    }

    /** nd counts the slices it was given. */
    ghost predicate TookTurn(nd: NDRange, counter: nat, slices: seq<WorkGroupRange>)
      reads nd
    {
      nd.wgrsInTheWild == counter + |slices| && !nd.destroyed && |slices| <= 1 &&
      forall w :: w in slices ==> w.parent == nd
    }

    /** A valid NDRange but for the queue, which was as given. */
    ghost predicate CarvedIn(md: NDRange, was: seq<NDRange>)
      requires md in carved
      reads this, md
    {
      Consecutive(carved[md], md, md.nextWgr) && 1 <= md.totalSize && md.nextWgr <= md.totalSize &&
      (md in was <==> md.nextWgr < md.totalSize)
    }

    /** After its turn the first NDRange goes to the back while it has work-groups left. */
    method PutBack(nd: NDRange, placed: bool, ghost slices: seq<WorkGroupRange>, ghost was: seq<NDRange>)
      requires was != [] && was[0] == nd && ndranges == was[1..] && |was| <= RING_CAPACITY
      requires 0 <= minQuant < WORD && 0 <= maxIdleThreshold < WORD
      requires forall i, j :: 0 <= i < j < |was| ==> was[i] != was[j]
      requires forall md :: md in was ==> md in carved
      requires forall md :: md in carved && md != nd ==> CarvedIn(md, was)
      requires Consecutive(carved[nd] + slices, nd, nd.nextWgr) && 1 <= nd.totalSize && nd.nextWgr <= nd.totalSize
      requires placed || nd.HasMoreWgs()
      modifies this`ndranges, this`carved
      ensures Valid() && carved == old(carved)[nd := old(carved)[nd] + slices]
      ensures ndranges == was[1..] + (if nd.HasMoreWgs() then [nd] else [])
    {
      hide Consecutive;
      carved := carved[nd := carved[nd] + slices];
      if !placed {
        ndranges := ndranges + [nd];
      } else if nd.HasMoreWgs() {
        ndranges := ndranges + [nd];
      }
      Turned(was, nd.HasMoreWgs());
      forall md | md in carved
        ensures CarvedWell(md)
      {
        assert md != nd ==> old(CarvedIn(md, was));
      }
    }

    /** The first NDRange takes its turn and, while it has work-groups left, goes to the back. */
    method FirstTakesTurn(layer: Layer, offers: seq<Offer>)
        returns (ghost chosen: int, ghost slices: seq<WorkGroupRange>)
      requires Valid() && layer.SchedulersValid() && OffersFor(offers, |layer.schedulers|)
      requires forall i :: 0 <= i < |layer.schedulers| ==> layer.schedulers[i].id == i
      requires ndranges != [] && !ndranges[0].destroyed
      modifies this`ndranges, this`carved, ndranges[0], layer.schedulers, layer.manager
      ensures Valid() && layer.SchedulersValid()
      ensures TookTurn(old(ndranges)[0], old(ndranges[0].wgrsInTheWild), slices)
      ensures var nd := old(ndranges)[0];
              nd in old(carved) && carved == old(carved)[nd := old(carved)[nd] + slices] &&
              ndranges == old(ndranges)[1..] + (if nd.HasMoreWgs() then [nd] else [])
      ensures Outcome(chosen, slices, old(ndranges)[0], offers, old(ndranges[0].nextWgr),
              old(layer.manager.freeSchedulers))
      ensures if chosen == -1 then layer.Queues() == old(layer.Queues())
              else 0 <= chosen < |layer.schedulers| && old(layer.Queues())[chosen] == [] &&
                   layer.Queues() == old(layer.Queues())[chosen := slices]
    {
      hide Layer.SchedulersValid, Layer.Queues, Consecutive, Outcome, OffersFor, Quantum, NumWgs;
      ghost var was := ndranges;
      var nd := ndranges[0];
      assert CarvedWell(nd);
      ndranges := ndranges[1..];
      var idx;
      idx, slices := Turn(nd, carved[nd], layer, offers);
      chosen := idx;
      forall md | md in carved && md != nd
        ensures CarvedIn(md, was)
      {
        assert old(CarvedWell(md));
      }
      PutBack(nd, idx >= 0, slices, was);
    }

    /** One callback: the NDRange at the front gets a slice on the best free scheduler and goes to
        the back, or leaves when all of it is carved. Without a scheduler for it, it goes to the back.
        The offers are those for its kernel. */
    method OnFreeSchedulers(layer: Layer, offers: seq<Offer>)
        returns (ghost chosen: int, ghost slices: seq<WorkGroupRange>)
      requires Valid() && layer.SchedulersValid() && OffersFor(offers, |layer.schedulers|)
      requires forall i :: 0 <= i < |layer.schedulers| ==> layer.schedulers[i].id == i
      requires ndranges != [] && layer.manager.freeSchedulers != [] ==> !ndranges[0].destroyed
      modifies this`ndranges, this`carved, ndranges[..if ndranges == [] then 0 else 1], layer.schedulers, layer.manager
      ensures Valid() && layer.SchedulersValid()
      ensures old(ndranges) != [] && old(layer.manager.freeSchedulers) != [] ==>
                TookTurn(old(ndranges)[0], old(ndranges[0].wgrsInTheWild), slices)
      ensures old(ndranges) == [] || old(layer.manager.freeSchedulers) == [] ==>
                ndranges == old(ndranges) && carved == old(carved) && layer.Queues() == old(layer.Queues()) &&
                forall nd :: nd in ndranges ==> unchanged(nd)
      ensures old(ndranges) != [] && old(layer.manager.freeSchedulers) != [] ==>
                var nd := old(ndranges)[0];
                nd in old(carved) && carved == old(carved)[nd := old(carved)[nd] + slices] &&
                ndranges == old(ndranges)[1..] + (if nd.HasMoreWgs() then [nd] else []) &&
                Outcome(chosen, slices, nd, offers, old(ndranges[0].nextWgr), old(layer.manager.freeSchedulers)) &&
                if chosen == -1 then layer.Queues() == old(layer.Queues())
                else 0 <= chosen < |layer.schedulers| && old(layer.Queues())[chosen] == [] &&
                     layer.Queues() == old(layer.Queues())[chosen := slices]
    {
      hide Valid, Layer.SchedulersValid, Layer.Queues, Outcome, OffersFor, Quantum;
      chosen, slices := -1, [];
      if ndranges == [] || layer.manager.freeSchedulers == [] {
        return;
      }
      chosen, slices := FirstTakesTurn(layer, offers);
    }
  }
}
