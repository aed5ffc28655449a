/** The in-order command protocol (cpp/cmd_q.cc, cpp/dispatcher.cc, il/ocl_ds.h) as a state machine.
    Each step is atomic in the source: a client's push under the mutex, one stretch of the callback
    between two accesses to shared data, or the completion of a running NDRange. Clients may push
    between any two steps of the callback. */
module CommandQueueProtocol {
  import opened Basics

  const RING_CAPACITY: nat := 100

  /** An NDRANGE command is routable when it has a kernel and a program. */
  datatype Kind = WriteBuffer | ReadBuffer | NDRange(routable: bool) | Empty

  /** A command and, one to one with it, its event. */
  datatype Command = Command(id: nat, kind: Kind)

  /** Where on_new_cmd_cb stands. */
  datatype Pc =
    | Idle | CheckEmpty | CheckLast | Pop
    | SetLast(cmd: Command) | Dispatch(cmd: Command)
    | Recheck(cmd: Command) | RecheckState(cmd: Command) | Delete(cmd: Command)

  datatype State = State(
    submitted: set<Command>,       // every command some client has pushed
    accepted: seq<Command>,        // those that found room in the ring
    ring: seq<Command>,
    dispatched: seq<Command>,      // those handed to the dispatcher
    last: Option<Command>,         // whose event m_last_event is
    complete: set<Command>,        // whose event is CL_COMPLETE
    registered: set<Command>,      // whose event has the queue's completion callback
    running: set<Command>,         // whose NDRange has ranges in the schedulers, all that it was cut into
    stuck: set<Command>,           // whose NDRange is alive but will not finish
    clients: set<Command>,         // whose event the client still holds
    objects: set<Command>,         // whose MLCLCommand object is alive
    refs: map<Command, nat>,       // the reference counters of the live events
    pending: bool,                 // the watcher will be invoked
    pc: Pc)

  /** A callback step is told whether an NDRange dispatched in it will finish: there is an island for
      it, and each island given work has room. A client may let go of its event at any time. */
  datatype Action = Push(cmd: Command) | Callback(finishes: bool) | Complete(cmd: Command) | Release(cmd: Command)

  const INITIAL: State := State({}, [], [], [], None, {}, {}, {}, {}, {}, {}, map[], false, Idle)

  function Up(refs: map<Command, nat>, c: Command): map<Command, nat> {
    refs[c := (if c in refs then refs[c] else 0) + 1]
  }

  /** An event is deleted with its last reference. */
  function Down(refs: map<Command, nat>, c: Command): map<Command, nat> {
    if c !in refs then refs else if refs[c] <= 1 then refs - {c} else refs[c := refs[c] - 1]
  }

  predicate Enabled(s: State, a: Action) {
    match a
    case Push(cmd) => cmd !in s.submitted
    case Callback(_) => s.pc != Idle || s.pending
    case Complete(cmd) => s.pc == Idle && cmd in s.running
    case Release(cmd) => cmd in s.clients
  }

  function Apply(s: State, a: Action): State
    requires Enabled(s, a)
  {
    match a
    case Push(cmd) => DoPush(s, cmd)
    case Callback(finishes) => DoCallback(s, finishes)
    case Release(cmd) => s.(clients := s.clients - {cmd}, refs := Down(s.refs, cmd))
    case Complete(cmd) =>
      s.(complete := s.complete + {cmd}, running := s.running - {cmd}, refs := Down(s.refs, cmd),
      pending := s.pending || cmd in s.registered)
  }

  /** Except for an NDRange the client takes a reference to the event before it pushes. */
  predicate KeptByClient(cmd: Command) {
    !cmd.kind.NDRange?
  }

  /** The client creates the command, with its event. */
  function Created(s: State, cmd: Command): State {
    s.(submitted := s.submitted + {cmd}, objects := s.objects + {cmd},
    clients := if KeptByClient(cmd) then s.clients + {cmd} else s.clients,
    refs := if KeptByClient(cmd) then Up(Up(s.refs, cmd), cmd) else Up(s.refs, cmd))
  }

  /** push_back: a full ring drops the command, and the client is not told. */
  function DoPush(s: State, cmd: Command): State {
    var t := Created(s, cmd).(pending := true);
    if |t.ring| < RING_CAPACITY then t.(ring := t.ring + [cmd], accepted := t.accepted + [cmd]) else t
  }

  predicate LastIncomplete(s: State) {
    s.last.Some? && s.last.value !in s.complete
  }

  function DoCallback(s: State, finishes: bool): State
    requires s.pc != Idle || s.pending
  {
    match s.pc
    case Idle => s.(pending := false, pc := CheckEmpty)
    case CheckEmpty => s.(pc := if s.ring == [] then Idle else CheckLast)
    case CheckLast => s.(pc := if LastIncomplete(s) then Idle else Pop)
    case Pop => if s.ring == [] then s.(pc := Idle) else s.(ring := s.ring[1..], pc := SetLast(s.ring[0]))
    case SetLast(cmd) =>
      s.(last := Some(cmd), registered := s.registered + {cmd}, pc := Dispatch(cmd),
      refs := Up(if s.last.Some? then Down(s.refs, s.last.value) else s.refs, cmd))
    case Dispatch(cmd) => DoDispatch(s, cmd, finishes).(dispatched := s.dispatched + [cmd], pc := Recheck(cmd))
    case Recheck(cmd) => s.(pc := if s.ring == [] then Delete(cmd) else RecheckState(cmd))
    case RecheckState(cmd) => s.(pending := s.pending || !LastIncomplete(s), pc := Delete(cmd))
    case Delete(cmd) => s.(objects := s.objects - {cmd}, refs := Down(s.refs, cmd), pc := Idle)
  }

  /** handle_a_cmd: reads and writes complete at once; a routable NDRange lives and keeps a reference
      to the event; any other command never completes. */
  function DoDispatch(s: State, cmd: Command, finishes: bool): State {
    match cmd.kind
    case WriteBuffer => s.(complete := s.complete + {cmd}, pending := s.pending || cmd in s.registered)
    case ReadBuffer => s.(complete := s.complete + {cmd}, pending := s.pending || cmd in s.registered)
    case NDRange(routable) =>
      if !routable then s
      else if finishes then s.(running := s.running + {cmd}, refs := Up(s.refs, cmd))
      else s.(stuck := s.stuck + {cmd}, refs := Up(s.refs, cmd))
    case Empty => s
  }

  // ---------- The invariant ----------

  /** The command popped from the ring but not yet dispatched, if there is one. */
  function InHand(s: State): seq<Command> {
    if s.pc.SetLast? || s.pc.Dispatch? then [s.pc.cmd] else []
  }

  /** The command whose object the callback holds, if there is one. */
  function Held(s: State): set<Command> {
    if s.pc.SetLast? || s.pc.Dispatch? || s.pc.Recheck? || s.pc.RecheckState? || s.pc.Delete? then {s.pc.cmd} else {}
  }

  /** Accepted commands are the dispatched ones, then the one in hand, then the queued ones. */
  ghost predicate Conserved(s: State) {
    s.accepted == s.dispatched + InHand(s) + s.ring && Distinct(s.accepted) &&
    (forall c :: c in s.accepted ==> c in s.submitted) && |s.ring| <= RING_CAPACITY
  }

  /** Only the event of the last command taken from the ring can be incomplete. */
  ghost predicate InOrder(s: State) {
    (forall c :: c in s.dispatched && Some(c) != s.last ==> c in s.complete) &&
    (s.pc.Pop? || s.pc.SetLast? ==> !LastIncomplete(s)) &&
    (s.pc.Pop? || s.pc.CheckLast? || s.pc.RecheckState? ==> s.ring != []) &&
    (s.pc.Dispatch? ==> s.last == Some(s.pc.cmd) && s.pc.cmd in s.registered) &&
    (s.pc.Recheck? || s.pc.RecheckState? || s.pc.Delete? ==> s.last == Some(s.pc.cmd)) &&
    (if s.pc.Dispatch? then s.last == Some(s.pc.cmd) && s.pc.cmd !in s.complete
     else if s.dispatched == [] then s.last == None
     else s.last == Some(s.dispatched[|s.dispatched| - 1]))
  }

  /** Whoever is running or complete was dispatched, with the callback already registered. */
  ghost predicate Registered(s: State) {
    (forall c :: c in s.running || c in s.complete ==> c in s.dispatched && c in s.registered) &&
    (forall c :: c in s.stuck ==> c in s.dispatched && Some(c) == s.last) &&
    (forall c :: c in s.running || c in s.stuck ==> c !in s.complete) &&
    (forall c :: c in s.running ==> c !in s.stuck) &&
    forall c :: c in s.dispatched && Completes(c.kind) ==> c in s.running || c in s.stuck || c in s.complete
  }

  predicate Completes(k: Kind) {
    k.WriteBuffer? || k.ReadBuffer? || (k.NDRange? && k.routable)
  }

  /** An event is referenced by its command object, by the queue while it is the last one, by its
      NDRange while that lives, and by the client until it lets go. */
  function References(s: State, c: Command): nat {
    (if c in s.objects then 1 else 0) + (if s.last == Some(c) then 1 else 0) +
    (if c in s.running || c in s.stuck then 1 else 0) + (if c in s.clients then 1 else 0)
  }

  ghost predicate RefsExact(s: State) {
    (forall c :: c in s.refs <==> References(s, c) > 0) &&
    forall c :: c in s.refs ==> s.refs[c] == References(s, c)
  }

  ghost predicate Counted(s: State) {
    RefsExact(s) &&
    (forall c :: c in s.objects || Some(c) == s.last || c in s.running || c in s.stuck || c in s.clients ==>
      c in s.submitted) &&
    (forall c :: c in s.ring || c in Held(s) ==> c in s.objects)
  }

  /** While commands wait and the last event is unset or complete, a wake-up is on its way unless
      the callback has still to look. */
  ghost predicate NoLostWakeup(s: State) {
    (s.pc.Idle? || s.pc.Delete?) && s.ring != [] && !LastIncomplete(s) ==> s.pending
  }

  ghost predicate Invariant(s: State) {
    Conserved(s) && InOrder(s) && Registered(s) && Counted(s) && NoLostWakeup(s)
  }

  lemma DistinctSplit(q: seq<Command>, r: seq<Command>)
    requires Distinct(q + r)
    ensures Distinct(q) && forall c :: c in q ==> c !in r
  {
    var t := q + r;
    assert forall i :: 0 <= i < |q| ==> t[i] == q[i];
    assert forall i :: 0 <= i < |r| ==> t[|q| + i] == r[i];
  }

  /** No command is in two of the three parts: dispatched, in hand, queued. */
  lemma TakenOnce(s: State)
    requires Conserved(s)
    ensures forall c :: c in s.dispatched ==> c !in InHand(s) && c !in s.ring
    ensures forall c :: c in InHand(s) ==> c !in s.ring
    ensures forall c :: c in InHand(s) || c in s.ring || c in s.dispatched ==> c in s.submitted
  {
    DistinctSplit(s.dispatched + InHand(s), s.ring);
    DistinctSplit(s.dispatched, InHand(s));
    assert forall c :: c in s.accepted <==> c in s.dispatched || c in InHand(s) || c in s.ring;
  }

  lemma PushKeepsConserved(s: State, cmd: Command)
    requires Conserved(s) && cmd !in s.submitted
    ensures Conserved(DoPush(s, cmd))
  {
    assert s.dispatched + InHand(s) + (s.ring + [cmd]) == s.accepted + [cmd];
  }

  lemma DispatchFrame(s: State, cmd: Command, finishes: bool)
    ensures var t := DoDispatch(s, cmd, finishes);
            t.ring == s.ring && t.accepted == s.accepted && t.submitted == s.submitted && t.dispatched == s.dispatched
  {
  }

  lemma CallbackKeepsConserved(s: State, finishes: bool)
    requires Conserved(s) && Enabled(s, Callback(finishes))
    ensures Conserved(DoCallback(s, finishes))
  {
    hide Distinct, DoDispatch, Up, Down;
    DispatchFrame(s, if s.pc.Dispatch? then s.pc.cmd else Command(0, Empty), finishes);
    if s.pc.Pop? && s.ring != [] {
      assert s.dispatched + [] + s.ring == s.dispatched + [s.ring[0]] + s.ring[1..];
    } else if s.pc.Dispatch? {
      assert s.dispatched + [s.pc.cmd] + [] + s.ring == s.dispatched + [s.pc.cmd] + s.ring;
    }
  }

  lemma StepKeepsConserved(s: State, a: Action)
    requires Conserved(s) && Enabled(s, a)
    ensures Conserved(Apply(s, a))
  {
    hide Distinct;
    if a.Push? {
      PushKeepsConserved(s, a.cmd);
    } else if a.Callback? {
      CallbackKeepsConserved(s, a.finishes);
    }
  }

  lemma CallbackKeepsOrder(s: State, finishes: bool)
    requires Invariant(s) && Enabled(s, Callback(finishes))
    ensures InOrder(DoCallback(s, finishes))
  {
    hide Distinct, Conserved, Counted, Up, Down, NoLostWakeup;
    TakenOnce(s);
    if s.pc.Dispatch? {
      DispatchKeepsOrder(s, finishes);
    } else {
      hide DoDispatch;
      assert s.pc.SetLast? ==> s.pc.cmd in InHand(s);
    }
  }

  lemma DispatchKeepsOrder(s: State, finishes: bool)
    requires InOrder(s) && Registered(s) && s.pc.Dispatch?
    ensures InOrder(DoCallback(s, finishes))
  {
  }

  lemma StepKeepsOrder(s: State, a: Action)
    requires Invariant(s) && Enabled(s, a)
    ensures InOrder(Apply(s, a))
  {
    hide Distinct, Conserved, Counted, Up, Down, NoLostWakeup, DoDispatch, DoCallback;
    if a.Callback? {
      CallbackKeepsOrder(s, a.finishes);
    }
  }

  lemma CallbackKeepsRegistered(s: State, finishes: bool)
    requires Invariant(s) && Enabled(s, Callback(finishes))
    ensures Registered(DoCallback(s, finishes)) && NoLostWakeup(DoCallback(s, finishes))
  {
    hide Distinct, Conserved, Counted, Up, Down, InHand;
    TakenOnce(s);
    InHandIs(s);
    if s.pc.Dispatch? {
      DispatchKeepsRegistered(s, finishes);
    } else {
      hide DoDispatch;
    }
  }

  lemma DispatchKeepsRegistered(s: State, finishes: bool)
    requires Registered(s) && s.pc.Dispatch? && s.pc.cmd !in s.dispatched && s.pc.cmd in s.registered
    requires s.last == Some(s.pc.cmd)
    ensures Registered(DoCallback(s, finishes)) && NoLostWakeup(DoCallback(s, finishes))
  {
    hide Up, Down;
  }

  lemma StepKeepsRegistered(s: State, a: Action)
    requires Invariant(s) && Enabled(s, a)
    ensures Registered(Apply(s, a)) && NoLostWakeup(Apply(s, a))
  {
    hide Distinct, Conserved, Counted, Up, Down, DoCallback;
    if a.Callback? {
      CallbackKeepsRegistered(s, a.finishes);
    }
  }

  lemma InHandIs(s: State)
    ensures s.pc.SetLast? || s.pc.Dispatch? ==> s.pc.cmd in InHand(s)
  {
  }

  /** One reference more is counted up, one less is counted down. */
  lemma UpCounts(s: State, t: State, c: Command)
    requires RefsExact(s) && t.refs == Up(s.refs, c)
    requires forall x :: References(t, x) == References(s, x) + if x == c then 1 else 0
    ensures RefsExact(t)
  {
    hide References;
  }

  lemma DownCounts(s: State, t: State, c: Command)
    requires RefsExact(s) && t.refs == Down(s.refs, c)
    requires forall x :: References(s, x) == References(t, x) + if x == c then 1 else 0
    ensures RefsExact(t)
  {
    hide References;
  }

  lemma PushKeepsCounts(s: State, cmd: Command)
    requires Counted(s) && cmd !in s.submitted
    ensures Counted(DoPush(s, cmd))
  {
    hide Up, RefsExact;
    assert References(s, cmd) == 0;
    var t := s.(objects := s.objects + {cmd}, refs := Up(s.refs, cmd));
    UpCounts(s, t, cmd);
    var u := t.(clients := t.clients + {cmd}, refs := Up(t.refs, cmd));
    UpCounts(t, u, cmd);
    SameCounts(if KeptByClient(cmd) then u else t, DoPush(s, cmd));
  }

  lemma SameCounts(s: State, t: State)
    requires RefsExact(s) && t.refs == s.refs && forall x :: References(t, x) == References(s, x)
    ensures RefsExact(t)
  {
    hide References;
  }

  lemma SetLastKeepsCounts(s: State, finishes: bool)
    requires Counted(s) && s.pc.SetLast? && s.last != Some(s.pc.cmd) && s.pc.cmd in s.submitted
    ensures Counted(DoCallback(s, finishes))
  {
    hide Up, Down, RefsExact, DoDispatch;
    var t := if s.last.Some? then s.(last := None, refs := Down(s.refs, s.last.value)) else s;
    if s.last.Some? {
      DownCounts(s, t, s.last.value);
    }
    UpCounts(t, DoCallback(s, finishes), s.pc.cmd);
  }

  lemma DispatchKeepsCounts(s: State, finishes: bool)
    requires Counted(s) && s.pc.Dispatch? && s.pc.cmd !in s.running && s.pc.cmd !in s.stuck && s.pc.cmd in s.submitted
    ensures Counted(DoCallback(s, finishes))
  {
    hide Up, Down, RefsExact;
    if s.pc.cmd.kind.NDRange? && s.pc.cmd.kind.routable {
      UpCounts(s, DoCallback(s, finishes), s.pc.cmd);
    } else {
      SameCounts(s, DoCallback(s, finishes));
    }
  }

  lemma DeleteKeepsCounts(s: State, finishes: bool)
    requires Counted(s) && s.pc.Delete? && s.pc.cmd !in s.ring
    ensures Counted(DoCallback(s, finishes))
  {
    hide Down, RefsExact, DoDispatch;
    DownCounts(s, DoCallback(s, finishes), s.pc.cmd);
  }

  lemma OtherKeepsCounts(s: State, finishes: bool)
    requires Counted(s) && (s.pc.Idle? ==> s.pending) && !s.pc.SetLast? && !s.pc.Dispatch? && !s.pc.Delete?
    ensures Counted(DoCallback(s, finishes))
  {
    hide DoDispatch, Up, Down, RefsExact;
    SameCounts(s, DoCallback(s, finishes));
  }

  lemma CompleteKeepsCounts(s: State, cmd: Command)
    requires Counted(s) && Enabled(s, Complete(cmd)) && cmd !in s.stuck
    ensures Counted(Apply(s, Complete(cmd)))
  {
    hide Down, RefsExact;
    DownCounts(s, Apply(s, Complete(cmd)), cmd);
  }

  lemma ReleaseKeepsCounts(s: State, cmd: Command)
    requires Counted(s) && Enabled(s, Release(cmd))
    ensures Counted(Apply(s, Release(cmd)))
  {
    hide Down, RefsExact;
    DownCounts(s, Apply(s, Release(cmd)), cmd);
  }

  lemma StepKeepsCounts(s: State, a: Action)
    requires Invariant(s) && Enabled(s, a)
    ensures Counted(Apply(s, a))
  {
    hide Distinct, Conserved, NoLostWakeup, Counted, DoCallback, DoPush;
    if a.Push? {
      PushKeepsCounts(s, a.cmd);
    } else if a.Complete? {
      CompleteKeepsCounts(s, a.cmd);
    } else if a.Release? {
      ReleaseKeepsCounts(s, a.cmd);
    } else {
      TakenOnce(s);
      assert s.pc.SetLast? || s.pc.Dispatch? ==> s.pc.cmd in InHand(s);
      if s.pc.SetLast? {
        SetLastKeepsCounts(s, a.finishes);
      } else if s.pc.Dispatch? {
        DispatchKeepsCounts(s, a.finishes);
      } else if s.pc.Delete? {
        assert s.pc.cmd in s.dispatched;
        DeleteKeepsCounts(s, a.finishes);
      } else {
        OtherKeepsCounts(s, a.finishes);
      }
    }
  }

  lemma StepKeepsInvariant(s: State, a: Action)
    requires Invariant(s) && Enabled(s, a)
    ensures Invariant(Apply(s, a))
  {
    StepKeepsConserved(s, a);
    StepKeepsOrder(s, a);
    StepKeepsRegistered(s, a);
    StepKeepsCounts(s, a);
  }

  // ---------- Runs ----------

  ghost predicate IsRun(s: State, actions: seq<Action>)
    decreases |actions|
  {
    actions == [] || (Enabled(s, actions[0]) && IsRun(Apply(s, actions[0]), actions[1..]))
  }

  ghost function After(s: State, actions: seq<Action>): State
    requires IsRun(s, actions)
    decreases |actions|
  {
    if actions == [] then s else After(Apply(s, actions[0]), actions[1..])
  }

  lemma {:induction false} RunKeepsInvariant(s: State, actions: seq<Action>)
    requires Invariant(s) && IsRun(s, actions)
    ensures Invariant(After(s, actions))
    decreases |actions|
  {
    hide Invariant, Apply, Enabled;
    if actions != [] {
      StepKeepsInvariant(s, actions[0]);
      RunKeepsInvariant(Apply(s, actions[0]), actions[1..]);
    }
  }

  ghost predicate Reachable(s: State) {
    exists actions :: IsRun(INITIAL, actions) && After(INITIAL, actions) == s
  }

  lemma ReachableKeepsInvariant(s: State)
    requires Reachable(s)
    ensures Invariant(s)
  {
    hide Invariant, Apply, Enabled;
    InitiallyInvariant();
    var actions :| IsRun(INITIAL, actions) && After(INITIAL, actions) == s;
    RunKeepsInvariant(INITIAL, actions);
  }

  lemma InitiallyInvariant()
    ensures Invariant(INITIAL)
  {
  }

  /** In every reachable state the accepted commands are the dispatched ones followed by the ones
      still waiting, in the order they were accepted, and a command about to be dispatched finds
      the events of all commands dispatched before it complete. */
  lemma DispatchedInOrderAfterCompletion(s: State)
    requires Reachable(s)
    ensures s.accepted == s.dispatched + InHand(s) + s.ring
    ensures s.pc.Dispatch? ==> forall c :: c in s.dispatched ==> c in s.complete
    ensures forall i :: 0 <= i < |s.dispatched| - 1 ==> s.dispatched[i] in s.complete
  {
    ReachableKeepsInvariant(s);
    TakenOnce(s);
    assert s.pc.Dispatch? ==> s.pc.cmd in InHand(s);
    DistinctSplit(s.dispatched + InHand(s), s.ring);
    DistinctSplit(s.dispatched, InHand(s));
    forall i | 0 <= i < |s.dispatched| - 1
      ensures s.dispatched[i] in s.complete
    {
      assert s.dispatched[i] != s.dispatched[|s.dispatched| - 1];
    }
  }

  /** In every reachable state every event the next step touches is still alive, and the callback
      is registered with an event before anything can complete it. */
  lemma TouchedEventsAreAlive(s: State)
    requires Reachable(s)
    ensures s.last.Some? ==> s.last.value in s.refs
    ensures forall c :: c in Held(s) || c in s.running || c in s.stuck || c in s.clients ==> c in s.refs
    ensures forall c :: c in s.running || c in s.complete ==> c in s.registered
    ensures s.pc.Dispatch? ==> s.pc.cmd in s.registered
  {
    hide Conserved, NoLostWakeup, Distinct, Completes;
    ReachableKeepsInvariant(s);
    assert s.last.Some? ==> References(s, s.last.value) > 0;
    assert forall c :: c in Held(s) || c in s.running || c in s.stuck || c in s.clients ==> References(s, c) > 0;
  }

  // ---------- Nothing gets stuck ----------

  function PcRank(pc: Pc): nat {
    match pc
    case Idle => 0
    case CheckEmpty => 7
    case CheckLast => 6
    case Pop => 5
    case SetLast(_) => 24
    case Dispatch(_) => 23
    case Recheck(_) => 12
    case RecheckState(_) => 11
    case Delete(_) => 2
  }

  /** A bound on the steps left when no client pushes any more. */
  function Rank(s: State): nat {
    20 * |s.ring| + 10 * |s.running| + |s.clients| + (if s.pending then 8 else 0) + PcRank(s.pc)
  }

  lemma OneFewer(s: set<Command>, c: Command)
    requires c in s
    ensures |s - {c}| == |s| - 1
  {
  }

  lemma DispatchLowersRank(s: State, finishes: bool)
    requires s.pc.Dispatch? && s.pc.cmd !in s.running
    ensures Rank(DoCallback(s, finishes)) < Rank(s)
  {
    hide Up;
    assert |s.running + {s.pc.cmd}| == |s.running| + 1;
  }

  lemma CompleteLowersRank(s: State, cmd: Command)
    requires Enabled(s, Complete(cmd))
    ensures Rank(Apply(s, Complete(cmd))) < Rank(s)
  {
    hide Down;
    OneFewer(s.running, cmd);
  }

  lemma ReleaseLowersRank(s: State, cmd: Command)
    requires Enabled(s, Release(cmd))
    ensures Rank(Apply(s, Release(cmd))) < Rank(s)
  {
    hide Down;
    OneFewer(s.clients, cmd);
  }

  lemma OtherLowersRank(s: State, finishes: bool)
    requires Enabled(s, Callback(finishes)) && !s.pc.Dispatch?
    ensures Rank(DoCallback(s, finishes)) < Rank(s)
  {
    hide Up, Down, DoDispatch;
  }

  lemma StepLowersRank(s: State, a: Action)
    requires Enabled(s, a) && !a.Push? && (s.pc.Dispatch? ==> s.pc.cmd !in s.running)
    ensures Rank(Apply(s, a)) < Rank(s)
  {
    hide Rank, DoCallback, DoPush, Down;
    match a {
      case Complete(cmd) => CompleteLowersRank(s, cmd);
      case Release(cmd) => ReleaseLowersRank(s, cmd);
      case Callback(finishes) =>
        if s.pc.Dispatch? {
          DispatchLowersRank(s, finishes);
        } else {
          OtherLowersRank(s, finishes);
        }
      case Push(_) =>
    }
  }

  /** Once clients stop pushing, the callbacks, completions and releases come to an end. */
  lemma {:induction false} RunsAreBounded(s: State, actions: seq<Action>)
    requires Invariant(s) && IsRun(s, actions) && forall i :: 0 <= i < |actions| ==> !actions[i].Push?
    ensures |actions| <= Rank(s)
    decreases |actions|
  {
    if actions != [] {
      NotYetRunning(s);
      hide Invariant, Apply, Enabled;
      assert !actions[0].Push?;
      StepKeepsInvariant(s, actions[0]);
      StepLowersRank(s, actions[0]);
      RunsAreBounded(Apply(s, actions[0]), actions[1..]);
    }
  }

  lemma NotYetRunning(s: State)
    requires Invariant(s)
    ensures s.pc.Dispatch? ==> s.pc.cmd !in s.running
  {
    TakenOnce(s);
    assert s.pc.Dispatch? ==> s.pc.cmd in InHand(s);
  }

  /** While commands wait and the last event is unset or complete, the callback is running or due;
      while it is incomplete and can complete, its NDRange is running or its dispatch is under way. */
  lemma WakeupNeverLost(s: State)
    requires Reachable(s) && s.ring != []
    ensures !LastIncomplete(s) ==> forall finishes :: Enabled(s, Callback(finishes))
    ensures LastIncomplete(s) && Completes(s.last.value.kind) && s.last.value !in s.stuck ==>
              s.last.value in s.registered && (s.last.value in s.running || s.pc == Dispatch(s.last.value))
  {
    ReachableKeepsInvariant(s);
  }

  /** No callback is due and nothing that runs will finish. */
  ghost predicate Quiet(s: State) {
    (forall finishes :: !Enabled(s, Callback(finishes))) && forall c :: !Enabled(s, Complete(c))
  }

  /** When everything has come to rest, no wake-up was lost: the ring is empty and every accepted
      command is complete, unless the last command dispatched is one that never completes, or whose
      NDRange found no island or not enough room. */
  lemma QuietMeansDone(s: State)
    requires Reachable(s) && Quiet(s)
    ensures (s.ring == [] && forall c :: c in s.accepted ==> c in s.complete) <==>
            (s.last.Some? ==> Completes(s.last.value.kind) && s.last.value !in s.stuck)
    ensures s.last.Some? ==> s.last.value in s.accepted
  {
    ReachableKeepsInvariant(s);
    assert !Enabled(s, Callback(true));
    assert s.pc.Idle? && !s.pending;
    assert forall c :: c in s.running ==> Enabled(s, Complete(c));
    assert s.last.Some? ==> s.last.value in s.dispatched;
    assert forall c :: c in s.dispatched ==> c in s.accepted;
    CompletedCanComplete(s);
  }

  lemma CompletedCanComplete(s: State)
    requires Reachable(s)
    ensures forall c :: c in s.complete || c in s.running || c in s.stuck ==> Completes(c.kind)
  {
    var actions :| IsRun(INITIAL, actions) && After(INITIAL, actions) == s;
    RunCompletesOnly(INITIAL, actions);
  }

  ghost predicate OnlyCompletable(s: State) {
    forall c :: c in s.complete || c in s.running || c in s.stuck ==> Completes(c.kind)
  }

  lemma {:induction false} RunCompletesOnly(s: State, actions: seq<Action>)
    requires OnlyCompletable(s) && IsRun(s, actions)
    ensures OnlyCompletable(After(s, actions))
    decreases |actions|
  {
    if actions != [] {
      RunCompletesOnly(Apply(s, actions[0]), actions[1..]);
    }
  }

  // ---------- The silent drop ----------

  /** A push is accepted exactly when the ring has room; a command that was not accepted is never
      dispatched and never completes, whatever happens later. */
  lemma DroppedForever(s: State, cmd: Command, actions: seq<Action>)
    requires Reachable(s) && cmd !in s.submitted && IsRun(DoPush(s, cmd), actions)
    ensures cmd in DoPush(s, cmd).accepted <==> |s.ring| < RING_CAPACITY
    ensures |s.ring| == RING_CAPACITY ==>
              var t := After(DoPush(s, cmd), actions); cmd !in t.accepted && cmd !in t.dispatched && cmd !in t.complete
  {
    ReachableKeepsInvariant(s);
    var t := DoPush(s, cmd);
    StepKeepsInvariant(s, Push(cmd));
    if |s.ring| == RING_CAPACITY {
      StaysOut(t, cmd, actions);
      RunKeepsInvariant(t, actions);
      var u := After(t, actions);
      assert forall c :: c in u.dispatched ==> c in u.accepted;
    }
  }

  lemma {:induction false} StaysOut(s: State, cmd: Command, actions: seq<Action>)
    requires cmd in s.submitted && cmd !in s.accepted && IsRun(s, actions)
    ensures cmd !in After(s, actions).accepted
    decreases |actions|
  {
    if actions != [] {
      StaysOut(Apply(s, actions[0]), cmd, actions[1..]);
    }
  }
}

/** The queue object itself: its methods as the source has them, with other threads pushing and
    releasing between any two of their accesses to shared data, take exactly the steps of the
    protocol. */
module CommandQueue {
  import opened Basics
  import opened CommandQueueProtocol

  // ---------- Runs of one callback ----------

  /** A run of which every state but the first is inside the callback. */
  ghost predicate InCallback(s: State, actions: seq<Action>)
    decreases |actions|
  {
    actions == [] ||
    (Enabled(s, actions[0]) && Apply(s, actions[0]).pc != Idle && InCallback(Apply(s, actions[0]), actions[1..]))
  }

  ghost function Reached(s: State, actions: seq<Action>): State
    requires InCallback(s, actions)
    decreases |actions|
  {
    if actions == [] then s else Reached(Apply(s, actions[0]), actions[1..])
  }

  /** The callback that was entered in s has come as far as t. */
  ghost predicate Underway(s: State, t: State) {
    exists finishes, actions ::
      InCallback(s, [Callback(finishes)] + actions) && Reached(s, [Callback(finishes)] + actions) == t
  }

  /** The callback that was entered in s has returned in t: its last step led to Idle. */
  ghost predicate Returned(s: State, t: State) {
    exists mid, finishes :: Underway(s, mid) && mid.pc != Idle && t == DoCallback(mid, finishes) && t.pc == Idle
  }

  lemma {:induction false} OneMoreStep(s: State, actions: seq<Action>, a: Action)
    requires InCallback(s, actions) && Enabled(Reached(s, actions), a) && Apply(Reached(s, actions), a).pc != Idle
    ensures InCallback(s, actions + [a]) && Reached(s, actions + [a]) == Apply(Reached(s, actions), a)
    decreases |actions|
  {
    hide Enabled, Apply;
    if actions == [] {
      assert [] + [a] == [a] && [a][1..] == [];
      assert InCallback(Apply(s, a), []);
    } else {
      assert (actions + [a])[1..] == actions[1..] + [a];
      OneMoreStep(Apply(s, actions[0]), actions[1..], a);
    }
  }

  lemma UnderwayStep(s: State, t: State, a: Action)
    requires Underway(s, t) && Enabled(t, a) && Apply(t, a).pc != Idle
    ensures Underway(s, Apply(t, a))
  {
    hide Enabled, Apply, InCallback, Reached;
    var finishes, actions :| InCallback(s, [Callback(finishes)] + actions) &&
      Reached(s, [Callback(finishes)] + actions) == t;
    OneMoreStep(s, [Callback(finishes)] + actions, a);
    assert [Callback(finishes)] + actions + [a] == [Callback(finishes)] + (actions + [a]);
  }

  lemma UnderwayStart(s: State)
    requires s.pc == Idle && s.pending
    ensures Underway(s, s.(pending := false, pc := CheckEmpty))
  {
    var a := Callback(true);
    assert [a] + [] == [a] && [a][1..] == [];
    assert InCallback(Apply(s, a), []);
    assert InCallback(s, [a] + []) && Reached(s, [a] + []) == Apply(s, a);
  }

  // ---------- What a callback achieves ----------

  /** How far a callback that was entered in s has come in t: the queue as it was on entry, up to
      pushes, until a command is taken; then that command is dispatched behind the others. */
  ghost predicate Progress(s: State, t: State) {
    match t.pc
    case Idle => false
    case CheckEmpty => Untouched(s, t)
    case CheckLast => Untouched(s, t) && t.ring != []
    case Pop => Untouched(s, t) && t.ring != [] && !LastIncomplete(s)
    case SetLast(c) => Taken(s, t, c) && t.dispatched == s.dispatched
    case Dispatch(c) => Taken(s, t, c) && t.dispatched == s.dispatched && t.last == Some(c)
    case Recheck(c) => Served(s, t, c)
    case RecheckState(c) => Served(s, t, c)
    case Delete(c) => Served(s, t, c)
  }

  ghost predicate Untouched(s: State, t: State) {
    t.dispatched == s.dispatched && t.last == s.last && t.complete == s.complete && s.ring <= t.ring
  }

  ghost predicate Taken(s: State, t: State, c: Command) {
    !LastIncomplete(s) && (s.ring != [] ==> c == s.ring[0])
  }

  /** The command taken has been handed to the dispatcher, with its event as the last one. */
  ghost predicate Served(s: State, t: State, c: Command) {
    Taken(s, t, c) && t.dispatched == s.dispatched + [c] && t.last == Some(c) &&
    (c.kind.WriteBuffer? || c.kind.ReadBuffer? ==> c in t.complete) &&
    (c.kind.NDRange? && c.kind.routable ==> c in t.running || c in t.stuck)
  }

  lemma DispatchProgress(s: State, t: State, finishes: bool)
    requires Progress(s, t) && t.pc.Dispatch?
    ensures Progress(s, DoCallback(t, finishes))
  {
    hide Up, Down, LastIncomplete;
  }

  lemma CallbackProgress(s: State, t: State, finishes: bool)
    requires Progress(s, t) && DoCallback(t, finishes).pc != Idle
    ensures Progress(s, DoCallback(t, finishes))
  {
    hide Up, Down, DoDispatch;
    if t.pc.Dispatch? {
      DispatchProgress(s, t, finishes);
    }
  }

  lemma StepProgress(s: State, t: State, a: Action)
    requires Progress(s, t) && Enabled(t, a) && Apply(t, a).pc != Idle
    ensures Progress(s, Apply(t, a))
  {
    hide Up, Down, DoCallback;
    if a.Callback? {
      hide Progress;
      CallbackProgress(s, t, a.finishes);
    }
  }

  lemma {:induction false} RunProgress(s: State, t: State, actions: seq<Action>)
    requires Progress(s, t) && InCallback(t, actions)
    ensures Progress(s, Reached(t, actions))
    decreases |actions|
  {
    hide Progress, Apply, Enabled;
    if actions != [] {
      StepProgress(s, t, actions[0]);
      RunProgress(s, Apply(t, actions[0]), actions[1..]);
    }
  }

  lemma UnderwayProgress(s: State, t: State)
    requires s.pc == Idle && Underway(s, t)
    ensures Progress(s, t)
  {
    var finishes, actions :| InCallback(s, [Callback(finishes)] + actions) &&
      Reached(s, [Callback(finishes)] + actions) == t;
    assert ([Callback(finishes)] + actions)[1..] == actions;
    RunProgress(s, Apply(s, Callback(finishes)), actions);
  }

  /** One callback dispatches nothing if the last event is incomplete; otherwise the first command
      waiting, if there is one, with its event as the last one; and if none was waiting, nothing or
      a command pushed meanwhile. */
  lemma CallbackServesOne(s: State, t: State)
    requires s.pc == Idle && Returned(s, t)
    ensures LastIncomplete(s) ==> t.dispatched == s.dispatched && t.last == s.last && s.ring <= t.ring
    ensures !LastIncomplete(s) && s.ring != [] ==>
            t.dispatched == s.dispatched + [s.ring[0]] &&
            t.last == Some(s.ring[0])
    ensures !LastIncomplete(s) && s.ring == [] ==>
              (t.dispatched == s.dispatched && t.ring == []) ||
              (t.last.Some? && t.dispatched == s.dispatched + [t.last.value])
    ensures t.dispatched != s.dispatched ==>
              var c := t.last.value;
              (c.kind.WriteBuffer? || c.kind.ReadBuffer? ==> c in t.complete) &&
              (c.kind.NDRange? && c.kind.routable ==> c in t.running || c in t.stuck)
  {
    hide Up, Down, Underway;
    var mid, finishes :| Underway(s, mid) && mid.pc != Idle && t == DoCallback(mid, finishes) && t.pc == Idle;
    UnderwayProgress(s, mid);
  }

  // ---------- The object ----------

  class CommandQueue {
    var ringBuffer: seq<Command>
    var lastEvent: Option<Command>
    var watcherPending: bool
    // The events, command objects and NDRanges that the queue and the dispatcher touch
    var complete: set<Command>
    var registered: set<Command>
    var running: set<Command>
    var stuck: set<Command>
    var clients: set<Command>
    var objects: set<Command>
    var refs: map<Command, nat>
    var submitted: set<Command>
    ghost var accepted: seq<Command>
    ghost var dispatched: seq<Command>
    ghost var pc: Pc

    ghost function TheState(): State
      reads this
    {
      State(submitted, accepted, ringBuffer, dispatched, lastEvent, complete, registered, running, stuck, clients,
            objects, refs, watcherPending, pc)
    }

    constructor ()
      ensures TheState() == INITIAL
    {
      ringBuffer, lastEvent, watcherPending := [], None, false;
      complete, registered, running, stuck, clients, objects, refs := {}, {}, {}, {}, {}, {}, map[];
      submitted, accepted, dispatched, pc := {}, [], [], Idle;
    }

    method Create(cmd: Command)
      modifies this
      ensures TheState() == Created(old(TheState()), cmd)
      ensures clients == if cmd.kind.NDRange? then old(clients) else old(clients) + {cmd}
    {
      hide Up;
      submitted, objects, refs := submitted + {cmd}, objects + {cmd}, Up(refs, cmd);
      if KeptByClient(cmd) {
        clients, refs := clients + {cmd}, Up(refs, cmd);
      }
    }

    /** Called by any client thread, with a command it creates; push_back itself is under the mutex. */
    method PushBack(cmd: Command)
      requires Enabled(TheState(), Push(cmd))
      modifies this
      ensures TheState() == Apply(old(TheState()), Push(cmd))
    {
      hide Created;
      Create(cmd);
      if |ringBuffer| < RING_CAPACITY {
        ringBuffer, accepted := ringBuffer + [cmd], accepted + [cmd];
      }
      watcherPending := true;
    }

    /** The client lets go of its event. */
    method ReleaseEvent(cmd: Command)
      requires Enabled(TheState(), Release(cmd))
      modifies this
      ensures TheState() == Apply(old(TheState()), Release(cmd))
    {
      clients, refs := clients - {cmd}, Down(refs, cmd);
    }

    /** Whatever the client threads do meanwhile; s is where the callback was entered. */
    method OtherThreads(ghost s: State)
      requires Invariant(TheState()) && Underway(s, TheState()) && pc != Idle
      modifies this
      ensures Invariant(TheState()) && Underway(s, TheState())
      ensures pc == old(pc) && lastEvent == old(lastEvent) && (old(ringBuffer) != [] ==> ringBuffer != [])
    {
      hide Invariant, Apply, Underway, Up, Down;
      var steps: nat := *;
      while steps > 0
        invariant Invariant(TheState()) && Underway(s, TheState())
        invariant pc == old(pc) && lastEvent == old(lastEvent) && (old(ringBuffer) != [] ==> ringBuffer != [])
      {
        var cmd: Command := *;
        if cmd !in submitted {
          Pushed(TheState(), cmd);
          Advance(s, TheState(), Push(cmd));
          PushBack(cmd);
        } else if cmd in clients {
          Released(TheState(), cmd);
          Advance(s, TheState(), Release(cmd));
          ReleaseEvent(cmd);
        }
        steps := steps - 1;
      }
    }

    method IsEmpty() returns (empty: bool)
      ensures empty == (ringBuffer == [])
    {
      empty := |ringBuffer| == 0;
    }

    method PopFront(ghost finishes: bool) returns (cmd: Option<Command>)
      requires pc == Pop
      modifies this
      ensures TheState() == DoCallback(old(TheState()), finishes)
      ensures cmd == if old(ringBuffer) == [] then None else Some(old(ringBuffer)[0])
    {
      if |ringBuffer| != 0 {
        cmd := Some(ringBuffer[0]);
        ringBuffer := ringBuffer[1..];
        pc := SetLast(cmd.value);
      } else {
        cmd := None;
        pc := Idle;
      }
    }

    /** The reference to the previous event is dropped before the new one is taken; the completion
        callback is registered last. */
    method SetLastEvent(event: Command, ghost finishes: bool)
      requires pc == SetLast(event)
      modifies this
      ensures pc == Dispatch(event)
      ensures TheState() == DoCallback(old(TheState()), finishes)
    {
      hide Up, Down, DoDispatch;
      if lastEvent.Some? {
        refs := Down(refs, lastEvent.value);
      }
      lastEvent := Some(event);
      refs := Up(refs, event);
      registered := registered + {event};
      pc := Dispatch(event);
    }

    /** What a completed event does with the callback registered on it. */
    method SetAsComplete(event: Command)
      modifies this`complete, this`watcherPending
      ensures complete == old(complete) + {event} && watcherPending == (old(watcherPending) || event in registered)
    {
      complete := complete + {event};
      if event in registered {
        watcherPending := true;
      }
    }

    /** The last range of the event's NDRange has finished: the event completes, and the NDRange
        deletes itself. */
    method NdrangeFinished(event: Command)
      requires Enabled(TheState(), Complete(event))
      modifies this
      ensures TheState() == Apply(old(TheState()), Complete(event))
    {
      SetAsComplete(event);
      running, refs := running - {event}, Down(refs, event);
    }

    /** The NDRange object takes a reference to the event. */
    method StartNdrange(cmd: Command, finishes: bool)
      modifies this`refs, this`running, this`stuck
      ensures refs == Up(old(refs), cmd)
      ensures running == (if finishes then old(running) + {cmd} else old(running))
      ensures stuck == if finishes then old(stuck) else old(stuck) + {cmd}
    {
      refs := Up(refs, cmd);
      if finishes {
        running := running + {cmd};
      } else {
        stuck := stuck + {cmd};
      }
    }

    /** The parameter says whether routing the NDRange, if the command is one, finds an island and
        room on each island that is given work. */
    method HandleACmd(cmd: Command, finishes: bool)
      modifies this
      ensures TheState() == DoDispatch(old(TheState()), cmd, finishes)
    {
      hide Up, Down;
      match cmd.kind {
        case WriteBuffer => SetAsComplete(cmd);
        case ReadBuffer => SetAsComplete(cmd);
        case NDRange(routable) =>
          if routable {
            StartNdrange(cmd, finishes);
          }
        case Empty =>
      }
    }

    /** on_new_cmd_cb, with the pushes and releases of other threads between any two steps: one run
        of the callback's steps from entry to return. */
    method OnNewCmdCb(finishes: bool)
      requires Invariant(TheState()) && pc == Idle && watcherPending
      modifies this
      ensures Invariant(TheState()) && Returned(old(TheState()), TheState()) && pc == Idle
      ensures LastIncomplete(old(TheState())) ==> dispatched == old(dispatched) && lastEvent == old(lastEvent)
      ensures !LastIncomplete(old(TheState())) && old(ringBuffer) != [] ==>
                dispatched == old(dispatched) + [old(ringBuffer)[0]] && lastEvent == Some(old(ringBuffer)[0])
      ensures ringBuffer != [] && !LastIncomplete(TheState()) ==> watcherPending
    {
      hide Invariant, Underway, Returned, Apply, Enabled, DoDispatch, Up, Down;
      ghost var s := TheState();
      UnderwayStart(s);
      CallbackEnabled(s, finishes);
      Kept(s, Callback(finishes));
      watcherPending, pc := false, CheckEmpty;
      OtherThreads(s);

      var empty := IsEmpty();
      CallbackEnabled(TheState(), finishes);
      Kept(TheState(), Callback(finishes));
      if empty {
        Returns(s, TheState(), finishes);
        pc := Idle;
        CallbackServesOne(s, TheState());
        WakesAgain(TheState());
        return;
      }
      Advance(s, TheState(), Callback(finishes));
      pc := CheckLast;
      OtherThreads(s);
      TakeOne(finishes, s);
      CallbackServesOne(s, TheState());
      WakesAgain(TheState());
    }

    /** The callback from where it looks at the last event. */
    method TakeOne(finishes: bool, ghost s: State)
      requires Invariant(TheState()) && Underway(s, TheState()) && pc == CheckLast
      modifies this
      ensures Invariant(TheState()) && Returned(s, TheState()) && pc == Idle
    {
      hide Invariant, Underway, Returned, Apply, Enabled, DoDispatch, Up, Down;
      CallbackEnabled(TheState(), finishes);
      Kept(TheState(), Callback(finishes));
      if lastEvent.Some? && lastEvent.value !in complete {
        Returns(s, TheState(), finishes);
        pc := Idle;
        return;
      }
      Advance(s, TheState(), Callback(finishes));
      pc := Pop;
      OtherThreads(s);

      CallbackEnabled(TheState(), finishes);
      Advance(s, TheState(), Callback(finishes));
      var cmd := PopFront(finishes);
      OtherThreads(s);
      Serve(cmd.value, finishes, s);
    }

    /** The rest of the callback, for the command it has popped. */
    method Serve(cmd: Command, finishes: bool, ghost s: State)
      requires Invariant(TheState()) && Underway(s, TheState()) && pc == SetLast(cmd)
      modifies this
      ensures Invariant(TheState()) && Returned(s, TheState()) && pc == Idle
    {
      hide Invariant, Underway, Returned, Apply, Enabled, DoCallback, DoDispatch;
      NextPc(TheState(), finishes);
      CallbackEnabled(TheState(), finishes);
      Advance(s, TheState(), Callback(finishes));
      SetLastEvent(cmd, finishes);
      OtherThreads(s);

      NextPc(TheState(), finishes);
      CallbackEnabled(TheState(), finishes);
      Advance(s, TheState(), Callback(finishes));
      DispatchStep(TheState(), finishes);
      DispatchFrame(TheState(), cmd, finishes);
      HandleACmd(cmd, finishes);
      dispatched, pc := dispatched + [cmd], Recheck(cmd);
      OtherThreads(s);
      Finish(cmd, finishes, s);
    }

    /** The end of the callback: it feeds itself another event if there is more to do. */
    method Finish(cmd: Command, ghost finishes: bool, ghost s: State)
      requires Invariant(TheState()) && Underway(s, TheState()) && pc == Recheck(cmd)
      modifies this
      ensures Invariant(TheState()) && Returned(s, TheState()) && pc == Idle
    {
      hide Invariant, Underway, Returned, Apply, Enabled, DoCallback;
      NextPc(TheState(), finishes);
      CallbackEnabled(TheState(), finishes);
      Advance(s, TheState(), Callback(finishes));
      var more := LookAgain(cmd, finishes);
      OtherThreads(s);
      if more {
        NextPc(TheState(), finishes);
        CallbackEnabled(TheState(), finishes);
        Advance(s, TheState(), Callback(finishes));
        FeedIfComplete(cmd, finishes);
        OtherThreads(s);
      }
      NextPc(TheState(), finishes);
      CallbackEnabled(TheState(), finishes);
      Kept(TheState(), Callback(finishes));
      Returns(s, TheState(), finishes);
      DeleteCommand(cmd, finishes);
    }

    method LookAgain(cmd: Command, ghost finishes: bool) returns (more: bool)
      requires pc == Recheck(cmd)
      modifies this`pc
      ensures TheState() == DoCallback(old(TheState()), finishes) && pc == if more then RecheckState(cmd)
              else Delete(cmd)
    {
      var empty := IsEmpty();
      more := !empty;
      pc := if more then RecheckState(cmd) else Delete(cmd);
    }

    method FeedIfComplete(cmd: Command, ghost finishes: bool)
      requires pc == RecheckState(cmd) && lastEvent.Some?
      modifies this`pc, this`watcherPending
      ensures TheState() == DoCallback(old(TheState()), finishes) && pc == Delete(cmd)
    {
      if lastEvent.value in complete {
        watcherPending := true;
      }
      pc := Delete(cmd);
    }

    method DeleteCommand(cmd: Command, ghost finishes: bool)
      requires pc == Delete(cmd)
      modifies this`pc, this`objects, this`refs
      ensures TheState() == DoCallback(old(TheState()), finishes) && pc == Idle
    {
      objects, refs := objects - {cmd}, Down(refs, cmd);
      pc := Idle;
    }
  }

  lemma Pushed(s: State, cmd: Command)
    requires cmd !in s.submitted
    ensures Enabled(s, Push(cmd))
    ensures var t := Apply(s, Push(cmd)); t == DoPush(s, cmd) && t.pc == s.pc
  {
  }

  lemma Released(s: State, cmd: Command)
    requires cmd in s.clients
    ensures Enabled(s, Release(cmd))
    ensures var t := Apply(s, Release(cmd)); t.pc == s.pc && t.ring == s.ring && t.last == s.last
  {
  }

  lemma Kept(t: State, a: Action)
    requires Invariant(t) && Enabled(t, a)
    ensures Invariant(Apply(t, a))
  {
    StepKeepsInvariant(t, a);
  }

  /** One more step inside the callback. */
  lemma Advance(s: State, t: State, a: Action)
    requires Underway(s, t) && Invariant(t) && Enabled(t, a) && Apply(t, a).pc != Idle
    ensures Underway(s, Apply(t, a)) && Invariant(Apply(t, a))
  {
    hide Invariant, Apply, Enabled, Underway;
    UnderwayStep(s, t, a);
    StepKeepsInvariant(t, a);
  }

  /** The step with which the callback returns. */
  lemma Returns(s: State, t: State, finishes: bool)
    requires Underway(s, t) && t.pc != Idle && DoCallback(t, finishes).pc == Idle
    ensures Returned(s, DoCallback(t, finishes))
  {
  }

  lemma CallbackEnabled(s: State, finishes: bool)
    requires s.pc != Idle || s.pending
    requires Invariant(s)
    ensures Enabled(s, Callback(finishes)) && Apply(s, Callback(finishes)) == DoCallback(s, finishes)
    ensures s.pc.Pop? || s.pc.CheckLast? || s.pc.RecheckState? ==> s.ring != []
    ensures s.pc.RecheckState? ==> s.last.Some?
  {
  }

  /** Which steps stay inside the callback. */
  lemma NextPc(s: State, finishes: bool)
    requires s.pc != Idle
    ensures s.pc.SetLast? || s.pc.Dispatch? || s.pc.Recheck? || s.pc.RecheckState? ==>
            DoCallback(s, finishes).pc != Idle
    ensures s.pc.Delete? ==> DoCallback(s, finishes).pc == Idle
  {
  }

  lemma DispatchStep(s: State, finishes: bool)
    requires s.pc.Dispatch?
    ensures DoCallback(s, finishes) ==
            DoDispatch(s, s.pc.cmd, finishes).(dispatched := s.dispatched + [s.pc.cmd], pc := Recheck(s.pc.cmd))
  {
  }

  lemma WakesAgain(s: State)
    requires Invariant(s) && s.pc == Idle
    ensures s.ring != [] && !LastIncomplete(s) ==> s.pending
  {
  }
}
