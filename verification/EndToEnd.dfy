/** The command queue and the scheduling layer together: the dispatch of an NDRANGE command
    (cpp/dispatcher.cc:189) routes an NDRange, and the tick that retires its last range
    (cpp/ndrange.cc:195-205) completes the event the queue waits for. Everything runs on one event
    loop, so that ticks fall between two callbacks, never inside one; clients push at any time. */
module EndToEnd {
  import opened AlgoSimple
  import opened Basics
  import opened NDRanges
  import opened Scheduling
  import opened CommandQueueProtocol

  predicate Routable(k: Kind) {
    k == Kind.NDRange(true)
  }

  /** Where the command of a routed NDRange is in the protocol: complete with its NDRange, and until
      then running if each island given work had room, stuck otherwise. */
  ghost predicate AgreeOn(s: State, c: Command, r: RoutedAs, done: bool) {
    Routable(c.kind) && c in s.dispatched &&
    (c in s.complete <==> done) && (c in s.running <==> HadRoom(r) && !done) && (c in s.stuck <==> !HadRoom(r))
  }

  ghost predicate Agree(s: State, cmdOf: map<NDRange, Command>, routed: map<NDRange, RoutedAs>, done: set<NDRange>) {
    cmdOf.Keys == routed.Keys && done <= routed.Keys &&
    (forall nd :: nd in cmdOf ==> AgreeOn(s, cmdOf[nd], routed[nd], nd in done)) &&
    (forall nd, md :: nd in cmdOf && md in cmdOf && nd != md ==> cmdOf[nd] != cmdOf[md]) &&
    (forall c :: c in s.stuck ==> Routable(c.kind)) &&
    forall c: Command :: c in s.running || (c in s.complete && Routable(c.kind)) ==> HasNDRange(cmdOf, c)
  }

  ghost predicate HasNDRange(cmdOf: map<NDRange, Command>, c: Command) {
    exists nd :: nd in cmdOf && cmdOf[nd] == c
  }

  /** The command's NDRange was routed, with room for every share. */
  ghost predicate Served(cmdOf: map<NDRange, Command>, routed: map<NDRange, RoutedAs>, c: Command) {
    exists nd :: nd in cmdOf && nd in routed && cmdOf[nd] == c && HadRoom(routed[nd])
  }

  /** The callback step dispatches a command that is routed. */
  predicate Routes(s: State) {
    s.pc.Dispatch? && Routable(s.pc.cmd.kind)
  }

  lemma {:induction false} OneMore(s: State, actions: seq<Action>, a: Action)
    requires IsRun(s, actions) && Enabled(After(s, actions), a)
    ensures IsRun(s, actions + [a]) && After(s, actions + [a]) == Apply(After(s, actions), a)
    decreases |actions|
  {
    hide Enabled, Apply;
    if actions == [] {
      assert [a][1..] == [];
    } else {
      assert (actions + [a])[1..] == actions[1..] + [a];
      OneMore(Apply(s, actions[0]), actions[1..], a);
    }
  }

  lemma ReachableStep(s: State, a: Action)
    requires Reachable(s) && Enabled(s, a)
    ensures Reachable(Apply(s, a))
  {
    hide Enabled, Apply;
    var actions :| IsRun(INITIAL, actions) && After(INITIAL, actions) == s;
    OneMore(INITIAL, actions, a);
  }

  ghost predicate Took(s: State, a: Action, t: State) {
    Enabled(s, a) && t == Apply(s, a)
  }

  lemma OtherStepAgrees(s: State, a: Action, cmdOf: map<NDRange, Command>, routed: map<NDRange, RoutedAs>,
                        done: set<NDRange>)
    requires Agree(s, cmdOf, routed, done) && Enabled(s, a) && !a.Complete? && (a.Callback? ==> !Routes(s))
    ensures Agree(Apply(s, a), cmdOf, routed, done)
  {
    hide HadRoom, Up, Down, HasNDRange;
    var t := Apply(s, a);
    SameOnRoutable(s, a);
    forall nd | nd in cmdOf
      ensures AgreeOn(t, cmdOf[nd], routed[nd], nd in done)
    {
      assert AgreeOn(s, cmdOf[nd], routed[nd], nd in done);
    }
  }

  ghost predicate SameRoutable(s: State, t: State) {
    t.running == s.running && t.stuck == s.stuck && (forall c :: c in s.dispatched ==> c in t.dispatched) &&
    forall c: Command :: Routable(c.kind) ==> (c in t.complete <==> c in s.complete)
  }

  lemma SameOnRoutable(s: State, a: Action)
    requires Enabled(s, a) && !a.Complete? && (a.Callback? ==> !Routes(s))
    ensures SameRoutable(s, Apply(s, a))
  {
    hide Up, Down, DoCallback, DoPush;
    match a
    case Push(cmd) => PushIsSame(s, cmd);
    case Release(_) =>
    case Callback(finishes) =>
      if s.pc.Dispatch? {
        DispatchIsSame(s, finishes);
      } else {
        CallbackIsSame(s, finishes);
      }
    case Complete(_) =>
  }

  lemma PushIsSame(s: State, cmd: Command)
    ensures SameRoutable(s, DoPush(s, cmd))
  {
    hide Up;
  }

  lemma DispatchIsSame(s: State, finishes: bool)
    requires s.pc.Dispatch? && !Routes(s)
    ensures SameRoutable(s, DoCallback(s, finishes))
  {
  }

  lemma CallbackIsSame(s: State, finishes: bool)
    requires (s.pc != Idle || s.pending) && !s.pc.Dispatch?
    ensures SameRoutable(s, DoCallback(s, finishes))
  {
    hide Up, Down, DoDispatch;
  }

  lemma DispatchIs(s: State, finishes: bool)
    requires Routes(s)
    ensures var t, cmd := DoCallback(s, finishes), s.pc.cmd;
            t.dispatched == s.dispatched + [cmd] && t.complete == s.complete &&
            t.running == (if finishes then s.running + {cmd} else s.running) &&
            t.stuck == if finishes then s.stuck else s.stuck + {cmd}
  {
    hide Up;
  }

  /** The NDRanges routed before are where they were. */
  lemma OthersStay(s: State, cmdOf: map<NDRange, Command>, routed: map<NDRange, RoutedAs>, done: set<NDRange>,
                   nd: NDRange, finishes: bool)
    requires Agree(s, cmdOf, routed, done) && Invariant(s) && Routes(s) && nd in cmdOf
    ensures cmdOf[nd] != s.pc.cmd && AgreeOn(DoCallback(s, finishes), cmdOf[nd], routed[nd], nd in done)
  {
    hide HadRoom, DoCallback, Conserved, InOrder, Registered, Counted, NoLostWakeup, HasNDRange;
    NotYetDispatched(s);
    DispatchIs(s, finishes);
    assert AgreeOn(s, cmdOf[nd], routed[nd], nd in done);
  }

  /** A new NDRange, dispatched: it is entered only if it was routed. */
  lemma DispatchAgrees(s: State, cmdOf: map<NDRange, Command>, routed: map<NDRange, RoutedAs>, done: set<NDRange>,
                       nd: NDRange, r: RoutedAs, found: bool)
    requires Agree(s, cmdOf, routed, done) && Invariant(s) && Routes(s) && nd !in routed
    ensures var t := DoCallback(s, found && HadRoom(r));
            if found then Agree(t, cmdOf[nd := s.pc.cmd], routed[nd := r], done) else Agree(t, cmdOf, routed, done)
  {
    hide HadRoom, DoCallback, Invariant, HasNDRange, AgreeOn;
    var finishes := found && HadRoom(r);
    var t := DoCallback(s, finishes);
    NotYetDispatched(s);
    DispatchIs(s, finishes);
    forall md | md in cmdOf
      ensures cmdOf[md] != s.pc.cmd && AgreeOn(t, cmdOf[md], routed[md], md in done)
    {
      OthersStay(s, cmdOf, routed, done, md, finishes);
    }
    if found {
      assert AgreeOn(t, s.pc.cmd, r, false) by {
        assert s.pc.cmd in t.dispatched;
        JustRouted(s, t, r);
      }
      forall c: Command | c in t.running || (c in t.complete && Routable(c.kind))
        ensures HasNDRange(cmdOf[nd := s.pc.cmd], c)
      {
        OneMoreEntry(cmdOf, nd, s.pc.cmd, c);
      }
      Entered(t, cmdOf, routed, done, nd, s.pc.cmd, r);
    }
  }

  lemma Entered(t: State, cmdOf: map<NDRange, Command>, routed: map<NDRange, RoutedAs>, done: set<NDRange>,
                nd: NDRange, cmd: Command, r: RoutedAs)
    requires cmdOf.Keys == routed.Keys && done <= routed.Keys && nd !in routed && AgreeOn(t, cmd, r, false)
    requires forall md :: md in cmdOf ==> cmdOf[md] != cmd && AgreeOn(t, cmdOf[md], routed[md], md in done)
    requires forall md, md' :: md in cmdOf && md' in cmdOf && md != md' ==> cmdOf[md] != cmdOf[md']
    requires forall c :: c in t.stuck ==> Routable(c.kind)
    requires forall c: Command :: c in t.running || (c in t.complete && Routable(c.kind)) ==>
             HasNDRange(cmdOf[nd := cmd], c)
    ensures Agree(t, cmdOf[nd := cmd], routed[nd := r], done)
  {
    hide AgreeOn, HasNDRange;
    assert cmdOf[nd := cmd].Keys == routed[nd := r].Keys;
  }

  lemma JustRouted(s: State, t: State, r: RoutedAs)
    requires Routes(s) && s.pc.cmd in t.dispatched && s.pc.cmd !in s.running && s.pc.cmd !in s.stuck &&
             s.pc.cmd !in s.complete
    requires t.complete == s.complete
    requires t.running == if HadRoom(r) then s.running + {s.pc.cmd} else s.running
    requires t.stuck == if HadRoom(r) then s.stuck else s.stuck + {s.pc.cmd}
    ensures AgreeOn(t, s.pc.cmd, r, false)
  {
    hide HadRoom;
  }

  lemma OneMoreEntry(cmdOf: map<NDRange, Command>, nd: NDRange, cmd: Command, c: Command)
    requires nd !in cmdOf && (HasNDRange(cmdOf, c) || c == cmd)
    ensures HasNDRange(cmdOf[nd := cmd], c)
  {
    if c == cmd {
      assert cmdOf[nd := cmd][nd] == c;
    } else {
      var md: NDRange :| md in cmdOf && cmdOf[md] == c;
      assert cmdOf[nd := cmd][md] == c;
    }
  }

  lemma NotYetDispatched(s: State)
    requires Invariant(s) && s.pc.Dispatch?
    ensures s.pc.cmd !in s.dispatched && s.pc.cmd !in s.running && s.pc.cmd !in s.stuck && s.pc.cmd !in s.complete
  {
    TakenOnce(s);
    InHandIs(s);
  }

  lemma CompleteAgrees(s: State, cmdOf: map<NDRange, Command>, routed: map<NDRange, RoutedAs>, done: set<NDRange>,
                       nd: NDRange)
    requires Agree(s, cmdOf, routed, done) && s.pc == Idle && nd in cmdOf && nd !in done && HadRoom(routed[nd])
    ensures Enabled(s, Action.Complete(cmdOf[nd]))
    ensures Agree(Apply(s, Action.Complete(cmdOf[nd])), cmdOf, routed, done + {nd})
  {
    hide HadRoom, Down;
    var t := Apply(s, Action.Complete(cmdOf[nd]));
    assert AgreeOn(s, cmdOf[nd], routed[nd], nd in done);
    forall md | md in cmdOf
      ensures AgreeOn(t, cmdOf[md], routed[md], md in done + {nd})
    {
      assert AgreeOn(s, cmdOf[md], routed[md], md in done);
    }
  }

  /** Once dispatched, a routable command is not stuck exactly if it was served. */
  lemma ServedIff(s: State, cmdOf: map<NDRange, Command>, routed: map<NDRange, RoutedAs>, done: set<NDRange>,
                  c: Command)
    requires Agree(s, cmdOf, routed, done) && Registered(s) && c in s.dispatched && Routable(c.kind)
    ensures c !in s.stuck <==> Served(cmdOf, routed, c)
  {
    hide HadRoom;
    forall nd | nd in cmdOf && cmdOf[nd] == c
      ensures c in s.stuck <==> !HadRoom(routed[nd])
    {
      assert AgreeOn(s, cmdOf[nd], routed[nd], nd in done);
    }
    if c !in s.stuck {
      assert HasNDRange(cmdOf, c);
      var nd: NDRange :| nd in cmdOf && cmdOf[nd] == c;
      assert HadRoom(routed[nd]);
    }
  }

  lemma {:induction false} NoBacklog(qs: seq<seq<WorkGroupRange>>)
    requires forall i :: 0 <= i < |qs| ==> qs[i] == []
    ensures Backlog(qs) == 0
  {
    if qs != [] {
      NoBacklog(qs[1..]);
    }
  }

  /** The queue's protocol and the layer. `cmdOf` stands for the event an NDRange refers to, which is
      its command's. */
  class Runtime {
    ghost var state: State
    const layer: Layer
    ghost var cmdOf: map<NDRange, Command>

    ghost function Done(): set<NDRange>
      reads layer, layer.routed.Keys, set nd | nd in layer.routed :: nd.event
    {
      set nd | nd in layer.routed && nd.event.state == EventState.Complete
    }

    ghost predicate Valid()
      reads this, layer, layer.schedulers, layer.manager, layer.algo, layer.routed.Keys
      reads set nd | nd in layer.routed :: nd.event
    {
      layer.Valid() && layer.algo.Valid() && layer.algo.numIslands == |layer.schedulers| &&
      Reachable(state) && Agree(state, cmdOf, layer.routed, Done())
    }

    constructor (layer: Layer)
      requires layer.Valid() && layer.algo.Valid() && layer.algo.numIslands == |layer.schedulers| &&
               layer.routed == map[]
      ensures Valid() && state == INITIAL && this.layer == layer
    {
      this.layer := layer;
      state := INITIAL;
      cmdOf := map[];
      new;
      assert IsRun(INITIAL, []) && After(INITIAL, []) == INITIAL;
    }

    /** Any step of the protocol but the dispatch of a routable NDRANGE command and its completion:
        those are steps of the layer. */
    ghost method Step(a: Action)
      requires Valid() && Enabled(state, a) && !a.Complete? && (a.Callback? ==> !Routes(state))
      modifies this
      ensures Valid() && state == Apply(old(state), a) && cmdOf == old(cmdOf)
      ensures !a.Push? ==> Rank(state) < Rank(old(state))
    {
      hide Reachable, Agree, Enabled, Apply, Rank, Layer.Valid;
      ReachableKeepsInvariant(state);
      NotYetRunning(state);
      ReachableStep(state, a);
      OtherStepAgrees(state, a, cmdOf, layer.routed, Done());
      if !a.Push? {
        StepLowersRank(state, a);
      }
      state := Apply(state, a);
    }

    lemma NoIslandNoFinish(n: nat, suitable: seq<bool>, remaining: seq<nat>, reconf: seq<nat>,
                           perWorkGroup: seq<nat>, queues: seq<seq<WorkGroupRange>>)
      requires |suitable| == |remaining| == |reconf| == |perWorkGroup| && forall i :: 0 <= i < |suitable| ==>
               !suitable[i]
      ensures !WillFinish(n, suitable, remaining, reconf, perWorkGroup, queues)
    {
      hide Optimal, HadRoom;
    }

    /** A new NDRange is routed. */
    method RouteNew(size: nat, suitable: seq<bool>, remaining: seq<nat>, reconf: seq<nat>, perWorkGroup: seq<nat>)
      returns (nd: NDRange, ghost found: bool)
      requires layer.Valid() && layer.algo.Valid() && layer.algo.numIslands == |layer.schedulers| && size >= 1
      requires |suitable| == |remaining| == |reconf| == |perWorkGroup| == |layer.schedulers|
      modifies layer, layer.schedulers, layer.manager, layer.algo
      ensures layer.Valid() && layer.algo.Valid() && Done() == old(Done()) && fresh(nd) && nd !in old(layer.routed)
      ensures found <==> exists i :: 0 <= i < |layer.schedulers| && suitable[i]
      ensures layer.routed == if found then old(layer.routed)[nd := RoutedAs(layer.algo.result, old(layer.Queues()))]
                              else old(layer.routed)
      ensures found ==> fresh(nd.event)
      ensures found && HadRoom(RoutedAs(layer.algo.result, old(layer.Queues()))) <==>
              WillFinish(size, suitable, remaining, reconf, perWorkGroup, old(layer.Queues()))
    {
      hide HadRoom, Layer.Valid, SharesQueued, WillFinish, Optimal, CostsAt, Marked;
      ghost var qs := layer.Queues();
      var event := new Event();
      nd := new NDRange(event, size);
      var shares := layer.RouteNdrange(nd, suitable, remaining, reconf, perWorkGroup);
      found := !nd.HasMoreWgs();
      assert found ==> nd.event.state != EventState.Complete;
      if found {
        WillFinishIff(layer.algo.result, size, suitable, remaining, reconf, perWorkGroup, qs);
      } else {
        NoIslandNoFinish(size, suitable, remaining, reconf, perWorkGroup, qs);
      }
    }

    /** The callback dispatches a routable command: its NDRange is created and routed. Whether it will
        finish is decided by what the queues, the resource check and the costs are at that moment. */
    method DispatchNdrange(size: nat, suitable: seq<bool>, remaining: seq<nat>, reconf: seq<nat>,
                           perWorkGroup: seq<nat>)
      requires Valid() && Routes(state) && size >= 1
      requires |suitable| == |remaining| == |reconf| == |perWorkGroup| == |layer.schedulers|
      modifies this, layer, layer.schedulers, layer.manager, layer.algo
      ensures Valid()
      ensures state == DoCallback(old(state), WillFinish(size, suitable, remaining, reconf, perWorkGroup,
              old(layer.Queues())))
      ensures Rank(state) < Rank(old(state))
    {
      hide Reachable, Agree, Enabled, Apply, Rank, DoCallback, HadRoom, Invariant, Layer.Valid, Done, WillFinish;
      ghost var s, routed, done, qs := state, layer.routed, Done(), layer.Queues();
      ghost var nd, found;
      nd, found := RouteNew(size, suitable, remaining, reconf, perWorkGroup);
      ghost var r := RoutedAs(layer.algo.result, qs);
      ghost var a := Callback(found && HadRoom(r));
      ReachableKeepsInvariant(s);
      DispatchAgrees(s, cmdOf, routed, done, nd, r, found);
      if found {
        cmdOf := cmdOf[nd := s.pc.cmd];
      }
      state := DoCallback(s, a.finishes);
      StepEnabled(s, a);
      ReachableStep(s, a);
      NotYetDispatched(s);
      StepLowersRank(s, a);
    }

    lemma StepEnabled(s: State, a: Action)
      requires Routes(s) && a.Callback?
      ensures Enabled(s, a) && Apply(s, a) == DoCallback(s, a.finishes)
    {
    }

    /** The range at the front of a queue belongs to an NDRange on its way. */
    lemma FrontIsRouted(i: nat)
      requires Valid() && i < |layer.schedulers| && layer.schedulers[i].inQueue != []
      ensures var nd := layer.schedulers[i].inQueue[0].parent; nd in cmdOf && nd in layer.routed && nd !in Done()
      ensures layer.schedulers[i].timerActive
    {
      hide Reachable, Layer.NDRangesValid, Layer.SchedulersValid, AgreeOn;
      layer.NoDanglingRange(i, 0);
      layer.TimerMeansQueue(i);
    }

    lemma EventsDiffer(nd: NDRange)
      requires Valid() && nd in layer.routed
      ensures forall md :: md in layer.routed && md != nd ==> md.event != nd.event
    {
      hide Reachable, Layer.SchedulersValid, Agree;
    }

    /** The NDRange is the one whose last range was retired. */
    twostate lemma TickAgrees(nd: NDRange)
      requires old(Valid()) && layer.Valid() && nd in layer.routed && layer.routed == old(layer.routed)
      requires state == old(state) && cmdOf == old(cmdOf) && state.pc == Idle && nd in cmdOf && nd !in old(Done())
      requires nd in Done() && Done() == old(Done()) + {nd}
      ensures Enabled(state, Action.Complete(cmdOf[nd])) && Reachable(Apply(state, Action.Complete(cmdOf[nd])))
      ensures Agree(Apply(state, Action.Complete(cmdOf[nd])), cmdOf, layer.routed, Done())
      ensures Rank(Apply(state, Action.Complete(cmdOf[nd]))) < Rank(state)
    {
      hide Reachable, Agree, Enabled, Apply, Rank, HadRoom, Invariant, Layer.Valid;
      var a := Action.Complete(cmdOf[nd]);
      layer.CompleteIffRetired(nd);
      CompleteAgrees(state, cmdOf, layer.routed, old(Done()), nd);
      ReachableStep(state, a);
      CompleteLowersRank(state, cmdOf[nd]);
    }

    /** The timer of a scheduler fires, between two callbacks: it is active as long as something is
        queued there. With the last range of an NDRange its command's event completes. */
    method Tick(i: nat)
      requires Valid() && state.pc == Idle && i < |layer.schedulers| && layer.schedulers[i].inQueue != []
      modifies this, layer.schedulers[i], layer.manager
      modifies layer.schedulers[i].inQueue[0].parent, layer.schedulers[i].inQueue[0].parent.event
      ensures Valid() && cmdOf == old(cmdOf) && layer.routed == old(layer.routed)
      ensures var nd := old(layer.schedulers[i].inQueue)[0].parent;
              nd in cmdOf && nd !in old(Done()) &&
              if nd in Done() then Took(old(state), Action.Complete(cmdOf[nd]), state) else state == old(state)
      ensures Rank(state) <= Rank(old(state)) && Backlog(layer.Queues()) == old(Backlog(layer.Queues())) - 1
    {
      hide Reachable, Agree, Enabled, Apply, Rank, HadRoom, Invariant, Layer.Valid, Backlog;
      FrontIsRouted(i);
      ghost var nd, done := layer.schedulers[i].inQueue[0].parent, Done();
      EventsDiffer(nd);
      var wgr := layer.OnTimer(i);
      assert Done() == if nd in Done() then done + {nd} else done;
      if nd in Done() {
        TickAgrees(nd);
        state := Apply(state, Action.Complete(cmdOf[nd]));
      }
    }

    /** While a callback is due, or a range is queued, there is a next step. */
    lemma NotAtRest()
      requires Valid() && (Backlog(layer.Queues()) > 0 || state.pending || state.pc != Idle)
      ensures (forall finishes :: Enabled(state, Callback(finishes))) ||
              (state.pc == Idle && exists i :: 0 <= i < |layer.schedulers| && layer.schedulers[i].inQueue != [])
    {
      hide Reachable, Agree, Layer.Valid;
      if forall i :: 0 <= i < |layer.schedulers| ==> layer.schedulers[i].inQueue == [] {
        NoBacklog(layer.Queues());
      }
    }

    /** At rest, with nothing queued and no callback due, everything accepted is complete unless the
        last command dispatched can never be: it is neither a read nor a write, nor an NDRANGE
        command for which there was an island, and room in the queue of each island given work, when
        it was dispatched. What is still queued behind such a command waits for ever. */
    lemma AtRest()
      requires Valid() && Backlog(layer.Queues()) == 0 && !state.pending && state.pc == Idle
      ensures Quiet(state)
      ensures (state.ring == [] && forall c :: c in state.accepted ==> c in state.complete) <==>
              (state.last.Some? ==>
                 var c := state.last.value;
                 c.kind.WriteBuffer? || c.kind.ReadBuffer? || (Routable(c.kind) && Served(cmdOf, layer.routed, c)))
    {
      hide Reachable, Layer.Valid, HadRoom, Backlog, Served;
      ReachableKeepsInvariant(state);
      forall c | c in state.running
        ensures false
      {
        NothingRuns(c);
      }
      assert Quiet(state);
      QuietMeansDone(state);
      if state.last.Some? && Routable(state.last.value.kind) {
        LastDispatched(state);
        ServedIff(state, cmdOf, layer.routed, Done(), state.last.value);
      }
    }

    lemma LastDispatched(s: State)
      requires Invariant(s) && s.pc == Idle && s.last.Some?
      ensures s.last.value in s.dispatched
    {
      hide Conserved, Registered, Counted;
    }

    lemma NothingRuns(c: Command)
      requires Valid() && Backlog(layer.Queues()) == 0
      ensures c !in state.running
    {
      hide Layer.Valid, HadRoom, Backlog;
      if c in state.running {
        var nd: NDRange :| nd in cmdOf && cmdOf[nd] == c;
        assert AgreeOn(state, cmdOf[nd], layer.routed[nd], nd in Done());
        layer.QuietMeansComplete(nd);
        assert false;
      }
    }
  }
}
