/** What the one commander can rely on at each point of a blocking call, while the exchange thread,
    the waiters and the closer run on. */
module RuntimeCommander {
  import opened Blocks
  import opened RegisterModel
  import opened ProcessImage
  import opened ExchangeRuntime
  import opened RuntimeRecords

  // ------------------------------------------------------------- the block on the wire

  /** Every cycle latched since the image's block was set carries it; the one already on the wire
      then is the only exception. */
  ghost predicate HeldInv(s: State) {
    && s.heldSince <= |s.cycles|
    && (forall i :: s.heldSince < i < |s.cycles| ==> s.cycles[i].block == s.image.command)
    && (s.exchanger.OnWire? && |s.cycles| > s.heldSince ==> s.exchanger.block == s.image.command)
  }

  lemma HeldCycled(s: State, a: CycleStep)
    requires HeldInv(s) && CanCycle(s, a)
    ensures HeldInv(Cycled(s, a))
  {
    hide Land, HostView;
  }

  lemma HeldCommanded(s: State, a: CommandStep)
    requires HeldInv(s) && CanCommand(s, a)
    ensures HeldInv(Commanded(s, a))
  {
    hide ActivateBlock, DeactivateBlock, Shown, Judged, Stale;
  }

  lemma HeldStep(s: State, a: Action)
    requires HeldInv(s) && Enabled(s, a)
    ensures HeldInv(Apply(s, a))
  {
    hide Cycled, Waited, Commanded;
    match a
    case Cycling(c) =>
      HeldCycled(s, c);
    case Waiting(w) =>
      WaitsLeaveCycles(s, w);
    case Commanding(c) =>
      HeldCommanded(s, c);
  }

  // ---------------------------------------------------------------- blocking calls

  ghost predicate IsRecord(s: State, r: Record) {
    1 <= r.count <= |s.records| && s.records[r.count - 1] == r
  }

  /** Records published during the call belong to cycles that ended after it began, but for one
      that may have been answered already. */
  ghost predicate CallInv(s: State, call: Call) {
    && call.from <= |s.cycles| && call.count <= |s.records|
    && (forall n :: call.count <= n < |s.answered| ==> s.answered[n] >= call.from - 1)
    && (call.cleared.Some? ==>
         && IsRecord(s, call.cleared.value)
         && call.cleared.value.count >= call.count + 2
         && !call.cleared.value.status.Activated())
  }

  /** The goals of an activation or recovery, what the image holds while each is waited for, and
      from which count on its records are judged. */
  ghost predicate GoalInv(s: State, call: Call, goal: Goal, desired: nat) {
    match goal
    case CarriesBlock(block) =>
      call.kind == Send(block) && s.image.command == block && desired > call.count && call.cleared.None?
    case AnyExchange =>
      !call.kind.Send? && s.image.command == call.entry && desired > call.count && call.cleared.None?
    case ActivateClear =>
      && !call.kind.Send? && call.previous == call.entry && s.image.command == DeactivateBlock(call.entry)
      && desired > call.count + 1 && call.cleared.None?
    case ActivationComplete =>
      && !call.kind.Send? && s.image.command == ActivateBlock(call.entry)
      && call.cleared.Some? && desired > call.cleared.value.count
  }

  ghost predicate ResultInv(s: State, call: Call, result: Result) {
    match result
    case Sent(r) => call.kind.Send? && IsRecord(s, r) && r.count > call.count && r.command == call.kind.sent
    case Activated(r) =>
      && !call.kind.Send? && s.image.command == ActivateBlock(call.entry)
      && call.cleared.Some? && call.cleared.value.count < r.count
      && IsRecord(s, r) && r.status.Activation() == Complete
    case AlreadyActive => call.kind.Activate? && s.image.command == call.entry
    case FaultLatched => call.kind.Activate? && s.image.command == call.entry
    case Timeout =>
      if call.kind.Send? then s.image.command == call.kind.sent
      else s.image.command == if call.cleared.Some? then ActivateBlock(call.entry) else call.entry
  }

  ghost predicate CommanderInv(s: State) {
    (s.commander.Free? || CallInv(s, s.commander.call)) &&
    match s.commander
    case Free => true
    case Sampled(call) => call.kind.Send? && s.image.command == call.entry && call.cleared.None?
    case ToWait(call, goal) => !goal.CarriesBlock? && GoalInv(s, call, goal, |s.records| + 1)
    case Awaiting(call, goal, desired) => GoalInv(s, call, goal, desired)
    case Judging(call, r) =>
      && !call.kind.Send? && s.image.command == call.entry && call.cleared.None?
      && IsRecord(s, r) && r.count > call.count
    case Resetting(call) =>
      !call.kind.Send? && s.image.command == call.entry && call.cleared.None? && |s.records| > call.count
    case Reactivating(call) =>
      && !call.kind.Send? && call.previous == call.entry && s.image.command == DeactivateBlock(call.entry)
      && call.cleared.Some?
    case Restoring(call) =>
      && !call.kind.Send? && call.previous == call.entry && s.image.command == DeactivateBlock(call.entry)
      && call.cleared.None?
    case Returned(call, result) => ResultInv(s, call, result)
  }

  /** The device reports an activation complete or not begun, never in progress. */
  lemma NeverInProgress(s: State, r: Record)
    requires HistoryInv(s) && IsRecord(s, r)
    ensures r.status.Activation() != InProgress
  {
    var n := r.count - 1;
    assert Records(s.records[n], n, s.answered[n], s.cycles, s.devices);
    var d := s.devices[s.answered[n]];
    assert r.status == HostView(Land(d, s.cycles[s.answered[n]].block).status);
  }

  /** Steps of the other threads, as the commander sees them: only publications add records. */
  ghost predicate OthersRan(s: State, t: State) {
    && t.commander == s.commander && t.image.command == s.image.command
    && |s.cycles| <= |t.cycles|
    && ((t.records == s.records && t.answered == s.answered)
        || (t.cycles == s.cycles && |t.records| == |t.answered| == |s.records| + 1
            && |s.cycles| > 0
            && t.records[..|s.records|] == s.records && t.answered == s.answered + [|s.cycles| - 1]))
  }

  lemma ExchangerRuns(s: State, a: CycleStep)
    requires CanCycle(s, a)
    requires |s.records| == |s.answered| && (s.exchanger.LinkTurned? ==> |s.cycles| > 0)
    ensures OthersRan(s, Cycled(s, a))
  {
    hide Land, HostView;
  }

  lemma OthersRun(s: State, a: Action)
    requires HistoryInv(s) && Enabled(s, a) && !a.Commanding?
    ensures OthersRan(s, Apply(s, a))
  {
    assert |s.records| == |s.answered|;
    assert s.exchanger.LinkTurned? ==> |s.cycles| > 0;
    hide HistoryInv, Cycled, Waited;
    if a.Cycling? {
      ExchangerRuns(s, a.cycle);
    } else {
      WaitsLeaveCycles(s, a.wait);
    }
  }

  lemma CallKept(s: State, t: State, call: Call)
    requires HistoryInv(s) && HistoryInv(t) && OthersRan(s, t) && CallInv(s, call)
    ensures CallInv(t, call)
  {
    hide Faithful, ReplyPending;
    if t.records != s.records {
      assert t.answered[|s.answered|] == |s.cycles| - 1;
    }
  }

  lemma RecordsStay(s: State, t: State)
    requires OthersRan(s, t)
    ensures |s.records| <= |t.records|
    ensures forall r :: IsRecord(s, r) ==> IsRecord(t, r)
  {
    forall r | IsRecord(s, r) ensures IsRecord(t, r) {
      assert t.records[..|s.records|][r.count - 1] == s.records[r.count - 1];
    }
  }

  /** A goal speaks of the image's block, the call and a count that may only grow. */
  lemma GoalKept(s: State, t: State, call: Call, goal: Goal, desired: nat, later: nat)
    requires GoalInv(s, call, goal, desired) && t.image.command == s.image.command && desired <= later
    ensures GoalInv(t, call, goal, later)
  {
    hide ActivateBlock, DeactivateBlock;
  }

  lemma ResultKept(s: State, t: State, call: Call, result: Result)
    requires ResultInv(s, call, result) && t.image.command == s.image.command
    requires forall r :: IsRecord(s, r) ==> IsRecord(t, r)
    ensures ResultInv(t, call, result)
  {
    hide IsRecord, ActivateBlock, Status.Activation;
  }

  lemma OthersKeepCommander(s: State, t: State)
    requires HistoryInv(s) && HistoryInv(t) && OthersRan(s, t) && CommanderInv(s)
    ensures CommanderInv(t)
  {
    if !s.commander.Free? {
      CallKept(s, t, s.commander.call);
    }
    RecordsStay(s, t);
    hide HistoryInv, CallInv, IsRecord, GoalInv, ResultInv, ActivateBlock, DeactivateBlock;
    match s.commander
    case ToWait(call, goal) => GoalKept(s, t, call, goal, |s.records| + 1, |t.records| + 1);
    case Awaiting(call, goal, desired) => GoalKept(s, t, call, goal, desired, desired);
    case Returned(call, result) => ResultKept(s, t, call, result);
    case _ =>
  }

  lemma NewestIsRecord(s: State)
    requires HistoryInv(s) && s.image.stamped.count > 0
    ensures IsRecord(s, s.image.stamped)
  {
    assert Records(s.records[|s.records| - 1], |s.records| - 1, s.answered[|s.records| - 1], s.cycles, s.devices);
  }

  /** The image shows a record the call waits for. */
  lemma Observes(s: State)
    requires CommanderInv(s) && CanCommand(s, Observe)
    requires IsRecord(s, s.image.stamped) && |s.records| == s.image.stamped.count == |s.answered|
    ensures CommanderInv(Commanded(s, Observe))
  {
    hide ActivateBlock, DeactivateBlock, Status.Activation, Status.Activated;
  }

  lemma Judges(s: State, allowed: bool)
    requires CommanderInv(s) && CanCommand(s, Judge(allowed))
    requires s.commander.record.status.Activation() != InProgress
    ensures CommanderInv(Commanded(s, Judge(allowed)))
  {
    hide ActivateBlock, DeactivateBlock, Status.Activation, Status.MajorFault;
  }

  /** A call begins, or the image is set outside one. */
  lemma CommanderBegins(s: State, a: CommandStep)
    requires CommanderInv(s) && CanCommand(s, a)
    requires a.SetCommand? || a.BeginSend? || a.BeginActivate? || a.BeginRecover? || a.SetBlock?
    requires |s.records| == s.image.stamped.count == |s.answered|
    ensures CommanderInv(Commanded(s, a))
  {
    hide ActivateBlock, DeactivateBlock, Status.Activation, Status.Activated, Stale, IsRecord, ResultInv;
  }

  lemma CommanderMoves(s: State, a: CommandStep)
    requires CommanderInv(s) && CanCommand(s, a)
    requires a.BeginWait? || a.GiveUp? || a.Return?
    requires |s.records| == s.image.stamped.count == |s.answered|
    ensures CommanderInv(Commanded(s, a))
  {
    hide ActivateBlock, DeactivateBlock, Status.Activation, Status.Activated;
  }

  /** The handshake sets the image. */
  lemma CommanderSets(s: State, a: CommandStep)
    requires CommanderInv(s) && CanCommand(s, a)
    requires a.SetDeactivate? || a.SetActivate? || a.Restore?
    requires |s.records| == s.image.stamped.count == |s.answered|
    ensures CommanderInv(Commanded(s, a))
  {
    hide ActivateBlock, DeactivateBlock, Status.Activation, Status.Activated;
  }

  lemma CommanderStep(s: State, a: Action)
    requires HistoryInv(s) && CommanderInv(s) && Enabled(s, a)
    ensures CommanderInv(Apply(s, a))
  {
    assert |s.records| == s.image.stamped.count == |s.answered|;
    hide Cycled, Waited;
    match a
    case Commanding(step) =>
      if step.Observe? {
        NewestIsRecord(s);
        hide Commanded;
        Observes(s);
      } else if step.Judge? {
        NeverInProgress(s, s.commander.record);
        hide Commanded;
        Judges(s, step.handshakeAllowed);
      } else {
        hide Commanded;
        if step.SetCommand? || step.BeginSend? || step.BeginActivate? || step.BeginRecover? || step.SetBlock? {
          CommanderBegins(s, step);
        } else if step.SetDeactivate? || step.SetActivate? || step.Restore? {
          CommanderSets(s, step);
        } else {
          CommanderMoves(s, step);
        }
      }
    case _ =>
      hide CommanderInv, HistoryInv;
      HistoryStep(s, a);
      OthersRun(s, a);
      OthersKeepCommander(s, Apply(s, a));
  }
}
