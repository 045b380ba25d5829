/** activate and recoverFromFault against the register model: what each result proves, whatever the
    exchange thread and the wire did meanwhile. */
module Handshake {
  import opened Blocks
  import opened RegisterModel
  import opened ProcessImage
  import opened ExchangeRuntime
  import opened RuntimeRecords
  import opened RuntimeCommander
  import opened RuntimeTheorems

  /** A complete reset and reactivation in the history, all of it after the first from cycles:
      cycle clear was answered with rACT clear and left no fault, the write of cycle edge raised
      rACT, which stayed set since, and cycle shown was answered with the activation complete. */
  ghost predicate Reactivated(cycles: seq<Cycle>, devices: seq<Device>, from: nat, clear: nat, edge: nat, shown: nat) {
    && |devices| == |cycles| + 1
    && from <= clear < edge <= shown < |cycles|
    && cycles[clear].outcome.Answered?
    && !devices[clear + 1].previousActivate && !devices[clear + 1].status.Activated()
    && devices[clear + 1].status.fault == 0
    && !devices[edge].previousActivate && devices[edge + 1].previousActivate
    && cycles[edge].block.Get(ACTIVATE) && !cycles[edge].outcome.FailedLost?
    && (forall j :: edge < j <= shown + 1 ==> devices[j].previousActivate)
    && cycles[shown].outcome.Answered?
    && devices[shown + 1].status.Activation() == Complete
  }

  /** The caller's block with the activation bit set and no motion requested. */
  predicate ActivatedBlock(before: Command, after: Command) {
    && after.Get(ACTIVATE) && !after.Get(GO_TO)
    && (after.action & 0xF6) == (before.action & 0xF6)
    && after.(action := before.action) == before
  }

  lemma {:induction false} LastEdge(devices: seq<Device>, low: nat, high: nat) returns (edge: nat)
    requires low < high < |devices| && !devices[low].previousActivate && devices[high].previousActivate
    ensures low <= edge < high && !devices[edge].previousActivate
    ensures forall j :: edge < j <= high ==> devices[j].previousActivate
  {
    if devices[high - 1].previousActivate {
      edge := LastEdge(devices, low, high - 1);
    } else {
      edge := high - 1;
    }
  }

  /** What a landed write leaves: the edge bits follow rACT, a clear rACT drops the fault. */
  lemma LandShows(d: Device, c: Command)
    requires Tracked(d)
    ensures
      var after := Land(d, c);
      && after.previousActivate == after.status.Activated() == HostView(after.status).Activated() == c.Get(ACTIVATE)
      && (!c.Get(ACTIVATE) ==> after.status.fault == 0)
      && (after.status.Activation() == Complete <==> c.Get(ACTIVATE))
      && HostView(after.status).Activation() == after.status.Activation()
  {
  }

  lemma BlocksKeepTheRest(before: Command)
    ensures ActivatedBlock(before, ActivateBlock(before))
  {
  }

  /** Two records of one call, the first with rACT clear and the later one complete. */
  lemma RecordsProveReactivation(t: State, call: Call, r: Record)
    requires HistoryInv(t) && CallInv(t, call) && call.cleared.Some?
    requires IsRecord(t, r) && call.cleared.value.count < r.count && r.status.Activation() == Complete
    ensures exists clear: nat, edge: nat, shown: nat ::
      Reactivated(t.cycles, t.devices, call.from, clear, edge, shown)
      && r.status == HostView(t.devices[shown + 1].status) && r.command == t.cycles[shown].block
  {
    hide HistoryInv, CallInv, IsRecord, Records, Tracked;
    var n, m := call.cleared.value.count - 1, r.count - 1;
    InOrder(t, call, r);
    var clear, shown := t.answered[n], t.answered[m];
    RecordShows(t, n);
    RecordShows(t, m);
    hide *;
    var edge := LastEdge(t.devices, clear + 1, shown + 1);
    CycleShows(t, edge);
    Enclosed(t, call.from, clear, edge, shown);
  }

  /** The cycles behind the two records ended within the call, one after the other. */
  lemma InOrder(t: State, call: Call, r: Record)
    requires HistoryInv(t) && CallInv(t, call) && call.cleared.Some?
    requires IsRecord(t, r) && call.cleared.value.count < r.count
    ensures 1 <= call.cleared.value.count && r.count <= |t.records| == |t.answered|
    ensures var n, m := call.cleared.value.count - 1, r.count - 1;
      && t.records[n] == call.cleared.value && t.records[m] == r
      && call.from <= t.answered[n] < t.answered[m]
      && !call.cleared.value.status.Activated()
  {
    hide Faithful, Records, ReplyPending, Status.Activated;
    assert t.answered[call.count] < t.answered[call.cleared.value.count - 1];
  }

  /** What a record says of the cycle behind it. */
  lemma RecordShows(t: State, n: nat)
    requires HistoryInv(t) && n < |t.records|
    ensures |t.answered| == |t.records| && |t.devices| == |t.cycles| + 1
    ensures var i, r := t.answered[n], t.records[n];
      && 0 <= i < |t.cycles| && t.cycles[i].outcome.Answered?
      && r.status == HostView(t.devices[i + 1].status) && r.command == t.cycles[i].block
      && t.devices[i + 1].previousActivate == t.devices[i + 1].status.Activated() == r.status.Activated()
      && (!r.status.Activated() ==> t.devices[i + 1].status.fault == 0)
      && (r.status.Activation() == Complete <==> t.devices[i + 1].previousActivate)
      && r.status.Activation() == t.devices[i + 1].status.Activation()
  {
    assert Records(t.records[n], n, t.answered[n], t.cycles, t.devices);
    var i := t.answered[n];
    LandShows(t.devices[i], t.cycles[i].block);
    hide Land, Tracked, Status.Activation, Status.Activated, HostView, Command.Get, AllRecords, ReplyPending;
    assert t.devices[i + 1] == AfterCycle(t.devices[i], t.cycles[i]);
  }

  /** A cycle that raised rACT carried it and landed. */
  lemma CycleShows(t: State, i: nat)
    requires HistoryInv(t) && i < |t.cycles|
    ensures |t.devices| == |t.cycles| + 1
    ensures !t.devices[i].previousActivate && t.devices[i + 1].previousActivate ==>
      t.cycles[i].block.Get(ACTIVATE) && !t.cycles[i].outcome.FailedLost?
  {
    LandShows(t.devices[i], t.cycles[i].block);
    hide Land, Tracked, Status.Activation, Status.Activated, HostView, Command.Get, AllRecords, ReplyPending;
    assert t.devices[i + 1] == AfterCycle(t.devices[i], t.cycles[i]);
  }

  lemma Enclosed(t: State, from: nat, clear: nat, edge: nat, shown: nat)
    requires |t.devices| == |t.cycles| + 1 && from <= clear < edge <= shown < |t.cycles|
    requires t.cycles[clear].outcome.Answered? && t.cycles[shown].outcome.Answered?
    requires !t.devices[clear + 1].previousActivate && !t.devices[clear + 1].status.Activated()
    requires t.devices[clear + 1].status.fault == 0
    requires !t.devices[edge].previousActivate && t.devices[edge + 1].previousActivate
    requires t.cycles[edge].block.Get(ACTIVATE) && !t.cycles[edge].outcome.FailedLost?
    requires forall j :: edge < j <= shown + 1 ==> t.devices[j].previousActivate
    requires t.devices[shown + 1].status.Activation() == Complete
    ensures Reactivated(t.cycles, t.devices, from, clear, edge, shown)
  {
  }

  /** An activation or recovery that returns Activated rests on a reset and a reactivation that both
      happened during the call: the judged status is the one answered after the rising edge, never an
      older one, even when cycles failed with their writes applied. The image is left with the
      caller's block, its activation bit set and no motion requested. */
  lemma ActivatedMeansReactivated(s: State, begin: CommandStep, acts: seq<Action>, t: State)
    requires Reachable(s) && s.commander.Free? && (begin.BeginActivate? || begin.BeginRecover?)
    requires Leads(Commanded(s, begin), acts, t) && WithinCall(acts)
    requires t.commander.Returned? && t.commander.result.Activated?
    ensures exists clear: nat, edge: nat, shown: nat ::
      Reactivated(t.cycles, t.devices, |s.cycles|, clear, edge, shown)
      && t.commander.result.shown.status == HostView(t.devices[shown + 1].status)
      && t.commander.result.shown.command == t.cycles[shown].block
    ensures Faithful(t.cycles, t.devices) && t.device == t.devices[|t.cycles|]
    ensures ActivatedBlock(s.image.command, t.image.command)
  {
    CallHolds(s, begin, acts, t);
    RecordsProveReactivation(t, t.commander.call, t.commander.result.shown);
    BlocksKeepTheRest(s.image.command);
  }

  /** Every other result: the caller's block is untouched, exactly, unless rACT was seen clear. A
      timeout while waiting for that restores the block. */
  lemma OtherResultsKeepTheBlock(s: State, begin: CommandStep, acts: seq<Action>, t: State)
    requires Reachable(s) && s.commander.Free? && (begin.BeginActivate? || begin.BeginRecover?)
    requires Leads(Commanded(s, begin), acts, t) && WithinCall(acts)
    requires t.commander.Returned? && !t.commander.result.Activated?
    ensures !t.commander.result.Sent?
    ensures !t.commander.result.Timeout? ==> begin.BeginActivate?
    ensures !t.commander.result.Timeout? || t.commander.call.cleared.None? ==> t.image.command == s.image.command
    ensures t.commander.result.Timeout? && t.commander.call.cleared.Some? ==>
      ActivatedBlock(s.image.command, t.image.command)
  {
    CallHolds(s, begin, acts, t);
    BlocksKeepTheRest(s.image.command);
  }

  /** A block that asks for no motion and is otherwise the caller's, but for rACT. */
  predicate AsksNoMotion(before: Command, after: Command) {
    after.action & 0x08 == 0 && after.action & 0xF6 == before.action & 0xF6 && after.(action := before.action) == before
  }

  /** At every moment of a call the image holds the caller's block or one that asks for no motion. */
  lemma NoMotionDuringCall(s: State, begin: CommandStep, acts: seq<Action>, t: State)
    requires Reachable(s) && s.commander.Free? && (begin.BeginActivate? || begin.BeginRecover?)
    requires Leads(Commanded(s, begin), acts, t) && WithinCall(acts)
    ensures t.image.command == s.image.command || AsksNoMotion(s.image.command, t.image.command)
  {
    CallHolds(s, begin, acts, t);
    HandshakeAsksNoMotion(s.image.command);
    hide HistoryInv, Reachable, Leads, ActivateBlock, DeactivateBlock, AsksNoMotion;
  }

  lemma HandshakeAsksNoMotion(before: Command)
    ensures AsksNoMotion(before, ActivateBlock(before)) && AsksNoMotion(before, DeactivateBlock(before))
  {
    Rising(before.action);
    Falling(before.action);
  }

  lemma Rising(action: bv8)
    ensures var on := (action & !GO_TO) | ACTIVATE;
      on & 0x08 == 0 && on & 0xF6 == action & 0xF6
  {
  }

  lemma Falling(action: bv8)
    ensures var off := ((action & !GO_TO) | ACTIVATE) & !ACTIVATE;
      off & 0x08 == 0 && off & 0xF6 == action & 0xF6
  {
  }

  lemma CallHolds(s: State, begin: CommandStep, acts: seq<Action>, t: State)
    requires Reachable(s) && s.commander.Free? && (begin.BeginActivate? || begin.BeginRecover?)
    requires Leads(Commanded(s, begin), acts, t) && WithinCall(acts)
    ensures HistoryInv(t) && CommanderInv(t) && !t.commander.Free?
    ensures var call := t.commander.call;
      && call.entry == s.image.command && call.from == |s.cycles|
      && call.kind == if begin.BeginActivate? then Activate else Recover
  {
    ReachableHolds(s);
    StepHolds(s, Commanding(begin));
    RunHolds(Commanded(s, begin), acts, t);
    CallRemembersItsStart(Commanded(s, begin), acts, t);
  }

  // ------------------------------------------------------------- and it can succeed

  /** The exchange thread between two cycles, of a gripper that has not been stopped. */
  predicate Ready(s: State) {
    s.exchanger.Idle? && s.running && Tracked(s.device)
  }

  /** A cycle that is answered: the image shows the device's reaction to its own block. */
  lemma AnsweredCycle(s: State, acts: seq<Action>, t: State) returns (further: seq<Action>, next: State)
    requires Leads(s, acts, t) && WithinCall(acts) && Ready(t)
    ensures Leads(s, further, next) && WithinCall(further) && Ready(next)
    ensures next.commander == t.commander && next.image.command == t.image.command
    ensures next.device == Land(t.device, t.image.command)
    ensures next.image.stamped.status == HostView(next.device.status)
    ensures next.image.stamped.count == t.image.stamped.count + 1
  {
    LandTracks(t.device, t.image.command);
    hide Land, HostView, Leads, WithinCall, Tracked;
    further, next := Go(s, acts, t, Cycling(Test));
    further, next := Go(s, further, next, Cycling(Latch));
    further, next := Go(s, further, next, Cycling(WireAnswers(t.now)));
    further, next := Go(s, further, next, Cycling(ClearFailures));
    further, next := Go(s, further, next, Cycling(TurnOperational));
    further, next := Go(s, further, next, Cycling(Publish));
    further, next := Go(s, further, next, Cycling(Notify));
    further, next := Go(s, further, next, Cycling(LogRecovery));
  }

  /** A status that ends a wait of the handshake, whatever record it comes in. */
  predicate Meets(goal: Goal, status: Status) {
    match goal
    case CarriesBlock(_) => false
    case AnyExchange => true
    case ActivateClear => !status.Activated()
    case ActivationComplete => status.Activation() == Complete
  }

  /** A wait whose goal the next answered cycle shows. */
  lemma WaitThatEnds(s: State, acts: seq<Action>, t: State) returns (further: seq<Action>, next: State)
    requires Leads(s, acts, t) && WithinCall(acts) && Ready(t) && t.commander.ToWait?
    requires Meets(t.commander.goal, HostView(Land(t.device, t.image.command).status))
    ensures Leads(s, further, next) && WithinCall(further) && Ready(next)
    ensures next.image.command == t.image.command && next.device == Land(t.device, t.image.command)
    ensures next.image.stamped.status == HostView(next.device.status)
    ensures next.commander == Shown(t.commander.call, t.commander.goal, next.image.stamped)
  {
    hide Land, HostView, Leads, WithinCall, Tracked;
    further, next := Go(s, acts, t, Commanding(BeginWait));
    further, next := AnsweredCycle(s, further, next);
    further, next := Go(s, further, next, Commanding(Observe));
  }

  lemma BlocksSetTheBit(before: Command)
    ensures ActivateBlock(before).Get(ACTIVATE) && !DeactivateBlock(before).Get(ACTIVATE)
  {
  }

  /** How far the exchange thread is from its loop test. */
  function StepsLeft(e: Exchanger): nat {
    match e
    case Idle => 0
    case Committed => 8
    case OnWire(_) => 7
    case Replied(_, _, _) => 6
    case CounterCleared(_, _, _) => 5
    case LinkTurned(_, _, _, _) => 4
    case Stored(_) => 3
    case Notified(_) => 2
    case Failed => 3
    case FailureCounted(_) => 2
    case LinkDegraded(_) => 1
  }

  /** The step that ends the cycle in flight soonest, its exchange answered. */
  function NextToIdle(s: State): CycleStep {
    match s.exchanger
    case Idle => Test
    case Committed => Latch
    case OnWire(_) => WireAnswers(s.now)
    case Replied(_, _, _) => ClearFailures
    case CounterCleared(_, _, _) => TurnOperational
    case LinkTurned(_, _, _, _) => Publish
    case Stored(_) => Notify
    case Notified(_) => LogRecovery
    case Failed => CountFailure
    case FailureCounted(_) => Degrade
    case LinkDegraded(_) => LogFault
  }

  lemma OneCloser(s: State)
    requires !s.exchanger.Idle? && Tracked(s.device)
    ensures var a := NextToIdle(s);
      && CanCycle(s, a)
      && var t := Cycled(s, a);
         && StepsLeft(t.exchanger) < StepsLeft(s.exchanger)
         && t.commander == s.commander && t.image.command == s.image.command && t.running == s.running
         && Tracked(t.device)
  {
    if s.exchanger.OnWire? {
      LandTracks(s.device, s.exchanger.block);
    }
    hide Land, HostView, Tracked, WakeAll;
  }

  /** Wherever the exchange thread stands, it can run on to its loop test. */
  lemma {:induction false} RunsToIdle(s: State, acts: seq<Action>, t: State) returns (further: seq<Action>, next: State)
    requires Leads(s, acts, t) && WithinCall(acts) && Tracked(t.device) && t.running
    ensures Leads(s, further, next) && WithinCall(further) && Ready(next)
    ensures next.commander == t.commander && next.image.command == t.image.command
    decreases StepsLeft(t.exchanger)
  {
    hide Leads, WithinCall, Tracked, Cycled, CanCycle, NextToIdle;
    further, next := acts, t;
    if !t.exchanger.Idle? {
      OneCloser(t);
      further, next := Go(s, acts, t, Cycling(NextToIdle(t)));
      further, next := RunsToIdle(s, further, next);
    }
  }

  lemma ReachableTracks(s: State)
    requires Reachable(s)
    ensures Tracked(s.device)
  {
    ReachableHolds(s);
  }

  /** Given answered cycles and enough time, a recovery returns Activated, wherever the exchange thread
      stands when it starts and whatever the device's state was. */
  lemma RecoveryCanSucceed(s: State) returns (acts: seq<Action>, t: State)
    requires Reachable(s) && s.commander.Free? && s.running
    ensures Leads(Commanded(s, BeginRecover), acts, t) && WithinCall(acts)
    ensures t.commander.Returned? && t.commander.result.Activated?
  {
    ReachableTracks(s);
    var begun := Commanded(s, BeginRecover);
    hide Leads, WithinCall, Cycled, Waited, Land, HostView, Tracked, Reachable;
    NoStep(begun);
    acts, t := RunsToIdle(begun, [], begun);
    acts, t := WaitThatEnds(begun, acts, t);
    acts, t := Go(begun, acts, t, Commanding(Judge(true)));
    assert t.commander.Resetting?;
    acts, t := Reset(begun, acts, t);
    acts, t := Reactivate(begun, acts, t);
  }

  /** So does an activation of a gripper that is not asked to be active: it finds no fault and no
      activation to return early for. */
  lemma ActivationCanSucceed(s: State) returns (acts: seq<Action>, t: State)
    requires Reachable(s) && s.commander.Free? && s.running && !s.image.command.Get(ACTIVATE)
    ensures Leads(Commanded(s, BeginActivate), acts, t) && WithinCall(acts)
    ensures t.commander.Returned? && t.commander.result.Activated?
  {
    ReachableTracks(s);
    var begun := Commanded(s, BeginActivate);
    hide Leads, WithinCall, Cycled, Waited, Land, HostView, Tracked, Reachable, Command.Get, Judged;
    NoStep(begun);
    acts, t := RunsToIdle(begun, [], begun);
    var c := t.image.command;
    Unactivated(t.device, c);
    acts, t := WaitThatEnds(begun, acts, t);
    JudgedInactive(t.commander.call, t.commander.record.status);
    acts, t := Go(begun, acts, t, Commanding(Judge(true)));
    acts, t := Reset(begun, acts, t);
    acts, t := Reactivate(begun, acts, t);
  }

  /** What a device reports that was written with rACT clear. */
  lemma Unactivated(d: Device, c: Command)
    requires Tracked(d) && !c.Get(ACTIVATE)
    ensures Inactive(HostView(Land(d, c).status))
  {
  }

  predicate Inactive(status: Status) {
    !status.MajorFault() && status.Activation() == ActivationState.Reset
  }

  lemma JudgedInactive(call: Call, status: Status)
    requires Inactive(status)
    ensures Judged(call, status, true) == Resetting(call)
  {
    hide Status.MajorFault, Status.Activation;
  }

  /** The falling edge goes out and is seen. */
  lemma Reset(s: State, acts: seq<Action>, t: State) returns (further: seq<Action>, next: State)
    requires Leads(s, acts, t) && WithinCall(acts) && Ready(t) && t.commander.Resetting?
    ensures Leads(s, further, next) && WithinCall(further) && Ready(next) && next.commander.Reactivating?
  {
    BlocksSetTheBit(t.image.command);
    LandShows(t.device, DeactivateBlock(t.image.command));
    hide Leads, WithinCall, Cycled, Waited, Land, HostView, Tracked;
    hide ActivateBlock, DeactivateBlock, Command.Get, Status.Activated, Status.Activation;
    further, next := Go(s, acts, t, Commanding(SetDeactivate));
    further, next := WaitThatEnds(s, further, next);
  }

  /** The rising edge goes out and completes. */
  lemma Reactivate(s: State, acts: seq<Action>, t: State) returns (further: seq<Action>, next: State)
    requires Leads(s, acts, t) && WithinCall(acts) && Ready(t) && t.commander.Reactivating?
    ensures Leads(s, further, next) && WithinCall(further)
    ensures next.commander.Returned? && next.commander.result.Activated?
  {
    BlocksSetTheBit(t.commander.call.previous);
    LandShows(t.device, ActivateBlock(t.commander.call.previous));
    hide Leads, WithinCall, Cycled, Waited, Land, HostView, Tracked;
    hide ActivateBlock, DeactivateBlock, Command.Get, Status.Activated, Status.Activation;
    further, next := Go(s, acts, t, Commanding(SetActivate));
    further, next := WaitThatEnds(s, further, next);
  }
}
