/** What holds in every state the runtime can reach, from any settled or unsettled device, under any
    interleaving, any wire failures and any behaviour of the commander, waiters and closer. */
module RuntimeTheorems {
  import opened Blocks
  import opened RegisterModel
  import opened ProcessImage
  import opened ExchangeRuntime
  import opened RuntimeRecords
  import opened RuntimeWaits
  import opened RuntimeCommander
  import opened SendAndWait

  ghost predicate RuntimeInv(s: State) {
    && HistoryInv(s) && CountInv(s) && LinkInv(s) && WaiterInv(s)
    && HeldInv(s) && CommanderInv(s) && SendInv(s)
  }

  lemma InitiallyHolds(s: State)
    requires Initial(s)
    ensures RuntimeInv(s)
  {
    HistoryHolds(s);
  }

  lemma StepHolds(s: State, a: Action)
    requires RuntimeInv(s) && Enabled(s, a)
    ensures RuntimeInv(Apply(s, a))
  {
    hide HistoryInv, CountInv, LinkInv, WaiterInv, HeldInv, CommanderInv, SendInv, Apply, Enabled;
    HistoryStep(s, a);
    LinkStep(s, a);
    WaiterStep(s, a);
    HeldStep(s, a);
    CommanderStep(s, a);
    SendStep(s, a);
  }

  lemma {:induction false} RunHolds(s: State, acts: seq<Action>, t: State)
    requires RuntimeInv(s) && Leads(s, acts, t)
    ensures RuntimeInv(t)
    decreases |acts|
  {
    hide RuntimeInv, Apply, Enabled;
    if acts != [] {
      StepHolds(s, acts[0]);
      RunHolds(Apply(s, acts[0]), acts[1..], t);
    }
  }

  lemma ReachableHolds(t: State)
    requires Reachable(t)
    ensures RuntimeInv(t)
  {
    var s, acts :| Initial(s) && Leads(s, acts, t);
    InitiallyHolds(s);
    RunHolds(s, acts, t);
  }

  ghost predicate HasCycle(t: State, n: nat)
    requires n < |t.records| && |t.devices| == |t.cycles| + 1
  {
    exists i :: Records(t.records[n], n, i, t.cycles, t.devices)
  }

  /** Record n, from 1, is the nth successful cycle's: the block it latched, the status the device
      answered to that very write, whatever failed in between; the history gives the device before and
      after every cycle. No success goes unrecorded but the one
      between its answer and its publication. */
  lemma EveryRecordIsItsCycle(t: State)
    requires Reachable(t)
    ensures |t.devices| == |t.cycles| + 1 && t.image.stamped.count == |t.records|
    ensures Faithful(t.cycles, t.devices) && t.device == t.devices[|t.cycles|]
    ensures t.records != [] ==> t.image.stamped == t.records[|t.records| - 1]
    ensures forall n: nat :: n < |t.records| ==> HasCycle(t, n)
    ensures Successes(t.cycles, |t.cycles|) == |t.records| + if t.exchanger.InReply() then 1 else 0
  {
    ReachableHolds(t);
    hide LinkInv, CountInv, WaiterInv, HeldInv, CommanderInv, SendInv, Reachable;
    forall n: nat | n < |t.records| ensures HasCycle(t, n) {
      assert Records(t.records[n], n, t.answered[n], t.cycles, t.devices);
    }
    if t.exchanger.InReply() {
      var last := |t.cycles| - 1;
      assert Successes(t.cycles, last + 1) == Successes(t.cycles, last) + 1;
    }
  }

  /** Between cycles the link is faulted exactly when at least three failures followed the last
      success or the seed, however often the 32-bit counter has wrapped. At every other point too a
      faulted link means three failures since the newest record, so a waiter woken by a record reads
      an operational link until three cycles have failed after it. The log alternates. */
  lemma LinkHealth(t: State)
    requires Reachable(t)
    ensures t.exchanger.Idle? || t.exchanger.Committed? ==> (t.link.Faulted? <==> Trailing(t.cycles) >= 3)
    ensures t.link.Faulted? ==> t.failuresSince >= 3
    ensures t.exchanger.Stored? || t.exchanger.Notified? ==> t.link.Operational?
    ensures Alternating(t.log)
    ensures t.exchanger.Idle? || t.exchanger.Committed? ==> (LoggedDown(t.log) <==> t.link.Faulted?)
  {
    ReachableHolds(t);
  }

  /** A caller asleep in sync although the count is past the one it gave, or the image is closed, has
      a notifyAll still to come; one that came back had a reason. */
  lemma NoMissedWakeUp(t: State, w: nat)
    requires Reachable(t) && w in t.waiters
    ensures t.waiters[w].Blocked? && (t.image.stamped.count > t.waiters[w].count || t.image.closed)
      ==> NotificationDue(t)
    ensures t.waiters[w].Back? ==>
      || t.waiters[w].record.count > t.waiters[w].count
      || t.image.closed
      || t.now >= t.waiters[w].deadline
  {
    ReachableHolds(t);
  }

  /** What stopping and closing leave at each point of the closer. */
  predicate ClosingInv(s: State) {
    && (s.running <==> s.closer.Open?)
    && (s.image.closed <==> s.closer.CloseToNotify? || s.closer.Shut?)
    && (s.closer.Shut? ==> forall w | w in s.waiters :: !s.waiters[w].Blocked?)
  }

  lemma ClosingStep(s: State, a: Action)
    requires ClosingInv(s) && Enabled(s, a)
    ensures ClosingInv(Apply(s, a))
  {
    hide Cycled, Waited, Commanded, ClosingInv;
    match a
    case Commanding(c) =>
      CommandsLeaveCycles(s, c);
      SameClosing(s, Commanded(s, c));
    case Cycling(c) => ClosingCycled(s, c);
    case Waiting(w) => ClosingWaited(s, w);
  }

  lemma SameClosing(s: State, t: State)
    requires ClosingInv(s)
    requires t.running == s.running && t.closer == s.closer && t.image.closed == s.image.closed
    requires t.waiters == s.waiters
    ensures ClosingInv(t)
  {
  }

  lemma ClosingCycled(s: State, a: CycleStep)
    requires ClosingInv(s) && CanCycle(s, a)
    ensures ClosingInv(Cycled(s, a))
  {
    hide Land, HostView;
  }

  lemma ClosingWaited(s: State, a: WaitStep)
    requires ClosingInv(s) && CanWait(s, a)
    ensures ClosingInv(Waited(s, a))
  {
  }

  lemma {:induction false} ClosingRuns(s: State, acts: seq<Action>, t: State)
    requires Leads(s, acts, t) && ClosingInv(s)
    ensures ClosingInv(t)
    decreases |acts|
  {
    if acts != [] {
      ClosingStep(s, acts[0]);
      hide Apply, Enabled, ClosingInv;
      ClosingRuns(Apply(s, acts[0]), acts[1..], t);
    }
  }

  /** Once it has been closed and has notified, nobody is asleep and nobody falls asleep again; the thread
      stops when it is told to, and not before. */
  lemma ShutMeansAwake(t: State)
    requires Reachable(t)
    ensures t.running <==> t.closer.Open?
    ensures t.image.closed <==> t.closer.CloseToNotify? || t.closer.Shut?
    ensures t.closer.Shut? ==> forall w | w in t.waiters :: !t.waiters[w].Blocked?
  {
    var s, acts :| Initial(s) && Leads(s, acts, t);
    assert ClosingInv(s);
    hide Initial, Leads;
    ClosingRuns(s, acts, t);
  }

  /** Nobody falls asleep late: a caller found asleep was already asleep, in the same call, at every moment
      of the run past its deadline. */
  lemma {:induction false} NoSleepPastDeadline(s: State, acts: seq<Action>, t: State, w: nat)
    requires Leads(s, acts, t) && w in t.waiters && t.waiters[w].Blocked? && s.now >= t.waiters[w].deadline
    ensures w in s.waiters && s.waiters[w] == t.waiters[w]
    decreases |acts|
  {
    if acts != [] {
      StepsForward(s, acts[0]);
      StaysAsleep(s, acts[0], w);
      hide Apply, Enabled;
      NoSleepPastDeadline(Apply(s, acts[0]), acts[1..], t, w);
    }
  }

  lemma StaysAsleep(s: State, a: Action, w: nat)
    requires Enabled(s, a)
    ensures var t := Apply(s, a);
      w in t.waiters && t.waiters[w].Blocked? && s.now >= t.waiters[w].deadline ==>
        w in s.waiters && s.waiters[w] == t.waiters[w]
  {
    hide Land, HostView;
    match a
    case Commanding(c) => CommandsLeaveCycles(s, c); hide Commanded;
    case Cycling(_) => hide Waited, Commanded;
    case Waiting(_) => hide Cycled, Commanded;
  }

  /** The steps that set the image's block, on their own or inside a blocking call. */
  predicate SetsImage(a: Action) {
    a.Commanding?
    && (a.step.SetCommand? || a.step.SetBlock? || a.step.SetDeactivate? || a.step.SetActivate? || a.step.Restore?)
  }

  /** With no further set, every cycle from the second to end after a block was set carries it, answered
      or not: a bare set and those inside a blocking call alike, whatever else the commander does. */
  lemma BlockGoesOutByTheSecondCycle(s: State, first: Action, acts: seq<Action>, t: State, i: nat)
    requires Reachable(s) && Enabled(s, first) && SetsImage(first) && Leads(Apply(s, first), acts, t)
    requires forall a | a in acts :: !SetsImage(a)
    requires |s.cycles| + 1 <= i < |t.cycles|
    ensures t.cycles[i].block == Apply(s, first).image.command
  {
    ReachableHolds(s);
    StepHolds(s, first);
    HeldFor(Apply(s, first), acts, t);
    RunHolds(Apply(s, first), acts, t);
    SetHolds(s, first);
    hide Leads, Apply, Enabled;
  }

  lemma SetHolds(s: State, first: Action)
    requires Enabled(s, first) && SetsImage(first)
    ensures Apply(s, first).heldSince == |s.cycles|
  {
    hide Cycled, Waited, ActivateBlock, DeactivateBlock;
  }

  lemma OthersHold(s: State, a: Action)
    requires Enabled(s, a) && !SetsImage(a)
    ensures Apply(s, a).image.command == s.image.command && Apply(s, a).heldSince == s.heldSince
  {
    hide Land, HostView, Shown, Judged, Holds;
    match a
    case Cycling(_) => hide Waited, Commanded;
    case Waiting(_) => hide Cycled, Commanded;
    case Commanding(_) => hide Cycled, Waited;
  }

  lemma {:induction false} HeldFor(s: State, acts: seq<Action>, t: State)
    requires Leads(s, acts, t) && forall a | a in acts :: !SetsImage(a)
    ensures t.image.command == s.image.command && t.heldSince == s.heldSince
    decreases |acts|
  {
    if acts != [] {
      assert acts[0] in acts;
      OthersHold(s, acts[0]);
      hide Apply, Enabled;
      HeldFor(Apply(s, acts[0]), acts[1..], t);
    }
  }

  // ------------------------------------------------- what a thread sees of a run

  /** What Lawful asks of two looks at the image, for two states of a run. */
  predicate NotBefore(s: State, t: State) {
    && s.now <= t.now
    && s.image.stamped.count <= t.image.stamped.count
    && (s.image.stamped.count == t.image.stamped.count ==> s.image.stamped == t.image.stamped)
    && (s.image.closed ==> t.image.closed)
  }

  lemma StepsForward(s: State, a: Action)
    requires Enabled(s, a)
    ensures NotBefore(s, Apply(s, a))
  {
    hide Cycled, Waited, Commanded, NotBefore;
    match a
    case Cycling(c) => CyclesForward(s, c);
    case Waiting(w) => WaitsForward(s, w);
    case Commanding(c) => CommandsForward(s, c);
  }

  lemma CyclesForward(s: State, a: CycleStep)
    requires CanCycle(s, a)
    ensures NotBefore(s, Cycled(s, a))
  {
    hide Land, HostView, WakeAll;
  }

  lemma WaitsForward(s: State, a: WaitStep)
    requires CanWait(s, a)
    ensures NotBefore(s, Waited(s, a))
  {
    hide WakeAll, Checked;
  }

  lemma CommandsForward(s: State, a: CommandStep)
    requires CanCommand(s, a)
    ensures NotBefore(s, Commanded(s, a))
  {
    hide Shown, Judged, Holds, Stale, ActivateBlock, DeactivateBlock;
  }

  /** Along every run time, counts and closing only go forward and a count names one record: the world
      that sync and the waits built on it are proved against is the one the runtime makes. */
  lemma {:induction false} RunsAreLawful(s: State, acts: seq<Action>, t: State)
    requires Leads(s, acts, t)
    ensures NotBefore(s, t)
    decreases |acts|
  {
    if acts != [] {
      StepsForward(s, acts[0]);
      hide Apply, Enabled;
      RunsAreLawful(Apply(s, acts[0]), acts[1..], t);
    }
  }

  // ---------------------------------------------------------------- calls

  /** acts belong to the call in progress: they do not return from it. */
  ghost predicate WithinCall(acts: seq<Action>) {
    Commanding(Return) !in acts
  }

  predicate SameStart(a: Call, b: Call) {
    b.kind == a.kind && b.entry == a.entry && b.from == a.from && b.count == a.count && b.stale == a.stale
  }

  lemma CallKeepsItsStart(s: State, a: Action)
    requires Enabled(s, a) && !s.commander.Free? && a != Commanding(Return)
    ensures !Apply(s, a).commander.Free? && SameStart(s.commander.call, Apply(s, a).commander.call)
  {
    match a
    case Commanding(c) =>
      hide Cycled, Waited, ActivateBlock, DeactivateBlock, Status.Activation, Status.MajorFault, Holds;
    case _ =>
      hide Commanded, Land, HostView;
  }

  lemma {:induction false} CallRemembersItsStart(s: State, acts: seq<Action>, t: State)
    requires Leads(s, acts, t) && WithinCall(acts) && !s.commander.Free?
    ensures !t.commander.Free?
    ensures SameStart(s.commander.call, t.commander.call)
    decreases |acts|
  {
    if acts != [] {
      assert acts[0] in acts;
      CallKeepsItsStart(s, acts[0]);
      hide Apply, Enabled;
      CallRemembersItsStart(Apply(s, acts[0]), acts[1..], t);
    }
  }

  /** A send from s proves itself: whenever it returns a record, the device's documented command
      bytes are the block's. */
  ghost predicate SendProves(s: State, block: Command)
    requires s.commander.Free?
  {
    forall acts, t |
      && Leads(Apply(s, Commanding(BeginSend(block))), acts, t) && WithinCall(acts)
      && t.commander.Returned? && t.commander.result.Sent? ::
        t.device.command.Wire() == block.Wire()
  }

  /** The record returned by setCommandAndWaitForExchange proves that the gripper has the block
      exactly when the call did not start while an older cycle with this very block was in flight,
      the image already held another one, and further cycles were to follow. */
  lemma SendProvesUnlessStale(s: State, block: Command)
    requires Reachable(s) && s.commander.Free?
    ensures SendProves(s, block) <==> !(Stale(s, block) && s.running)
  {
    ReachableHolds(s);
    var begun := Apply(s, Commanding(BeginSend(block)));
    StepHolds(s, Commanding(BeginSend(block)));
    if !(Stale(s, block) && s.running) {
      forall acts, t | Leads(begun, acts, t) && WithinCall(acts)
          && t.commander.Returned? && t.commander.result.Sent?
        ensures t.device.command.Wire() == block.Wire()
      {
        RunHolds(begun, acts, t);
        CallRemembersItsStart(begun, acts, t);
      }
    } else {
      var acts, t := StaleRun(begun, block);
      assert t.device.command.Wire() != block.Wire();
    }
  }

  /** Once a record was published since the image was last set, what is in flight is the image's block. */
  predicate InFlightIsHeld(s: State, before: nat) {
    s.image.stamped.count > before && (s.exchanger.OnWire? || s.exchanger.InReply()) ==>
      s.exchanger.block == s.image.command
  }

  lemma InFlightStaysHeld(s: State, a: Action, before: nat)
    requires Enabled(s, a) && !SetsImage(a) && InFlightIsHeld(s, before)
    ensures InFlightIsHeld(Apply(s, a), before)
  {
    OthersHold(s, a);
    hide Cycled, Waited, Commanded, SetsImage;
    match a
    case Cycling(c) => CyclesHold(s, c, before);
    case Waiting(w) => WaitsLeaveCycles(s, w);
    case Commanding(c) => CommandsLeaveCycles(s, c);
  }

  lemma CyclesHold(s: State, a: CycleStep, before: nat)
    requires CanCycle(s, a) && InFlightIsHeld(s, before)
    ensures InFlightIsHeld(Cycled(s, a), before)
  {
    hide Land, HostView, WakeAll;
  }

  lemma {:induction false} RunStaysHeld(s: State, acts: seq<Action>, t: State, before: nat)
    requires Leads(s, acts, t) && InFlightIsHeld(s, before) && forall a | a in acts :: !SetsImage(a)
    ensures InFlightIsHeld(t, before)
    decreases |acts|
  {
    hide InFlightIsHeld;
    if acts != [] {
      assert acts[0] in acts;
      InFlightStaysHeld(s, acts[0], before);
      hide Apply, Enabled;
      RunStaysHeld(Apply(s, acts[0]), acts[1..], t, before);
    }
  }

  /** What a caller can see: once a single record was published since it last set the image, by a bare set
      or inside another call, a send of any block at all is proved. */
  lemma SendAfterARecordProves(s0: State, first: Action, acts: seq<Action>, s: State, block: Command)
    requires Enabled(s0, first) && SetsImage(first) && Leads(Apply(s0, first), acts, s)
    requires forall a | a in acts :: !SetsImage(a)
    requires Reachable(s) && s.commander.Free? && s.image.stamped.count > s0.image.stamped.count
    ensures SendProves(s, block)
  {
    CommandsLeaveCycles(s0, first.step);
    RunStaysHeld(Apply(s0, first), acts, s, s0.image.stamped.count);
    hide SendProves, Leads, Apply, Enabled;
    SendProvesUnlessStale(s, block);
  }

  /** Sending the block the image already holds, in its wire bytes, is always proved. */
  lemma SendOfHeldBlockProves(s: State, block: Command)
    requires Reachable(s) && s.commander.Free? && s.image.command.Wire() == block.Wire()
    ensures SendProves(s, block)
  {
    SendProvesUnlessStale(s, block);
  }

  lemma BeginningIsInitial(device: Device, at: int, now: int)
    requires Tracked(device)
    ensures var seed := Seed(HostView(device.status));
      Initial(Beginning(Image(seed, Record(0, at, seed, HostView(device.status)), false), device, now))
  {
  }

  /** It happens: with any device at the start and any two blocks of different wire bytes, the second set
      while the first is on the wire makes a later send of the first one prove nothing. */
  lemma StaleIsReachable(device: Device, at: int, now: int, a: Command, b: Command) returns (s: State)
    requires Tracked(device) && a.Wire() != b.Wire()
    ensures Reachable(s) && s.commander.Free? && s.running && Stale(s, a)
    ensures !SendProves(s, a)
  {
    var seed := Seed(HostView(device.status));
    var s0 := Beginning(Image(seed, Record(0, at, seed, HostView(device.status)), false), device, now);
    BeginningIsInitial(device, at, now);
    var acts;
    acts, s := BecomesStale(s0, a, b);
    hide Initial, Leads, Stale, SendProves, Beginning;
    assert Initial(s0) && Leads(s0, acts, s);
    SendProvesUnlessStale(s, a);
  }

  /** One block latched, another set behind it. */
  lemma BecomesStale(s0: State, a: Command, b: Command) returns (acts: seq<Action>, s: State)
    requires s0.exchanger.Idle? && s0.running && s0.commander.Free? && a.Wire() != b.Wire()
    ensures Leads(s0, acts, s) && s.commander.Free? && s.running && Stale(s, a)
  {
    NoStep(s0);
    hide Leads, WithinCall, Command.Wire, Waited;
    acts, s := Go(s0, [], s0, Commanding(SetCommand(a)));
    acts, s := Go(s0, acts, s, Cycling(Test));
    acts, s := Go(s0, acts, s, Cycling(Latch));
    acts, s := Go(s0, acts, s, Commanding(SetCommand(b)));
  }

  /** The cycle in flight publishes its record. */
  lemma {:induction false} FinishCycle(s: State, block: Command) returns (acts: seq<Action>, t: State)
    requires s.exchanger.Carries(block)
    ensures Leads(s, acts, t) && WithinCall(acts)
    ensures t.exchanger.Stored? && t.image.stamped.command == block
    ensures t.image.stamped.count == s.image.stamped.count + 1
    ensures t.image.command == s.image.command && t.commander == s.commander && t.running == s.running
    decreases match s.exchanger
              case OnWire(_) => 3
              case Replied(_, _, _) => 2
              case CounterCleared(_, _, _) => 1
              case _ => 0
  {
    hide Land, HostView;
    if s.exchanger.LinkTurned? {
      acts, t := [Cycling(Publish)], Cycled(s, Publish);
      assert Leads(t, [], t);
    } else {
      var a := Cycling(match s.exchanger
        case OnWire(_) => WireAnswers(s.now)
        case Replied(_, _, _) => ClearFailures
        case _ => TurnOperational);
      acts, t := FinishCycle(Apply(s, a), block);
      acts := [a] + acts;
      assert acts[1..] == acts[1..];
    }
  }

  lemma StepFirst(s: State, a: Action, acts: seq<Action>, t: State)
    requires Enabled(s, a) && Leads(Apply(s, a), acts, t)
    ensures Leads(s, [a] + acts, t)
  {
    assert ([a] + acts)[1..] == acts;
  }

  lemma {:induction false} LeadsOn(s: State, acts: seq<Action>, m: State, more: seq<Action>, t: State)
    requires Leads(s, acts, m) && Leads(m, more, t)
    ensures Leads(s, acts + more, t)
    decreases |acts|
  {
    hide Apply, Enabled;
    if acts == [] {
      assert acts + more == more;
    } else {
      LeadsOn(Apply(s, acts[0]), acts[1..], m, more, t);
      assert (acts + more)[1..] == acts[1..] + more;
    }
  }

  /** A run of the call, one step further. */
  lemma Go(s: State, acts: seq<Action>, t: State, a: Action) returns (further: seq<Action>, next: State)
    requires Leads(s, acts, t) && WithinCall(acts) && Enabled(t, a) && a != Commanding(Return)
    ensures Leads(s, further, next) && WithinCall(further) && next == Apply(t, a)
  {
    further, next := acts + [a], Apply(t, a);
    LeadsFurther(s, acts, t, a);
  }

  lemma NoStep(s: State)
    ensures Leads(s, [], s) && WithinCall([])
  {
  }

  /** The next cycle latches the image's block and its write lands. */
  lemma NextWriteLands(s: State) returns (acts: seq<Action>, t: State)
    requires s.exchanger.Stored? && s.running
    ensures Leads(s, acts, t) && WithinCall(acts)
    ensures t.device.command.Wire() == s.image.command.Wire()
    ensures t.image == s.image && t.commander == s.commander
  {
    LandTracks(s.device, s.image.command);
    hide Leads, WithinCall, Land, HostView, Command.Wire, Waited, Commanded;
    NoStep(s);
    acts, t := Go(s, [], s, Cycling(Notify));
    acts, t := Go(s, acts, t, Cycling(LogRecovery));
    acts, t := Go(s, acts, t, Cycling(Test));
    acts, t := Go(s, acts, t, Cycling(Latch));
    acts, t := Go(s, acts, t, Cycling(WireFails(true)));
  }

  /** The stale cycle's record answers the call while the image's older block lands after it. */
  lemma StaleRun(s: State, block: Command) returns (acts: seq<Action>, t: State)
    requires s.exchanger.Carries(block) && s.image.command.Wire() != block.Wire() && s.running
    requires s.commander.Sampled? && s.commander.call.kind == Send(block)
    requires s.commander.call.count == s.image.stamped.count
    ensures Leads(s, acts, t) && WithinCall(acts)
    ensures t.commander.Returned? && t.commander.result.Sent?
    ensures t.device.command.Wire() != block.Wire()
  {
    var first, s0 := FinishCycle(s, block);
    var next, s1 := NextWriteLands(s0);
    var last;
    last, t := ReturnsMatched(s1, block);
    hide Apply, Enabled, Exchanger.Carries, Command.Wire;
    LeadsOn(s0, next, s1, last, t);
    acts := first + (next + last);
    LeadsOn(s, first, s0, next + last, t);
  }

  /** The commander sets its block and is answered by the record already there. */
  lemma ReturnsMatched(s: State, block: Command) returns (acts: seq<Action>, t: State)
    requires s.commander.Sampled? && s.commander.call.kind == Send(block)
    requires s.image.stamped.command == block && s.image.stamped.count > s.commander.call.count
    ensures Leads(s, acts, t) && WithinCall(acts)
    ensures t.commander.Returned? && t.commander.result.Sent? && t.device == s.device
  {
    hide Command.Wire, Cycled, Waited;
    var m := Commanded(s, SetBlock);
    t := Commanded(m, Observe);
    assert Leads(t, [], t);
    StepFirst(m, Commanding(Observe), [], t);
    acts := [Commanding(SetBlock), Commanding(Observe)];
    StepFirst(s, Commanding(SetBlock), [Commanding(Observe)], t);
  }
}
