/** What activate and recoverFromFault answer: the first record published since the call began decides, and
    the image is set only when the handshake runs. The status may be any; the device of this model is one
    that never shows an activation in progress. */
module Activation {
  import opened Blocks
  import opened RegisterModel
  import opened ProcessImage
  import opened ExchangeRuntime
  import opened RuntimeTheorems
  import opened Wrappers

  /** The faults that need a reset, and the codes nobody knows. */
  predicate ShowsMajorFault(status: Status) {
    var code := status.fault & 0x0F;
    code == 1 || code == 2 || code == 3 || code == 6 || code >= 10
  }

  predicate ShowsComplete(status: Status) { status.flags & 0x30 == 0x30 }

  predicate ShowsInProgress(status: Status) { status.flags & 0x30 == 0x10 }

  lemma StatusShows(status: Status)
    ensures status.MajorFault() <==> ShowsMajorFault(status)
    ensures status.Activation() == Complete <==> ShowsComplete(status)
    ensures status.Activation() == InProgress <==> ShowsInProgress(status)
  {
  }

  ghost predicate SetsNothing(acts: seq<Action>) {
    forall a | a in acts :: !SetsImage(a)
  }

  ghost predicate Allows(acts: seq<Action>) {
    Commanding(Judge(true)) in acts
  }

  /** The first record that a call is shown along a run: the one that ends its first wait. */
  ghost function FirstShown(s: State, acts: seq<Action>): Option<Record>
    decreases |acts|
  {
    if acts == [] || !Enabled(s, acts[0]) then None
    else if acts[0] == Commanding(Observe) then Some(s.image.stamped)
    else FirstShown(Apply(s, acts[0]), acts[1..])
  }

  // ------------------------------------------------------------- what follows from a record

  /** What the first record, if there is one, makes of the call. */
  datatype Decision = Unanswered | Refused | Left | Watched | Handed

  function Decided(kind: Kind, first: Option<Record>): Decision {
    if first.None? then Unanswered
    else if kind.Activate? && ShowsMajorFault(first.value.status) then Refused
    else if kind.Activate? && ShowsComplete(first.value.status) then Left
    else if kind.Activate? && ShowsInProgress(first.value.status) then Watched
    else Handed
  }

  /** The answer to each: only the last one sets the image, if half the time is left by then. */
  ghost predicate Answers(decision: Decision, result: Result, acts: seq<Action>) {
    match decision
    case Unanswered => result.Timeout? && SetsNothing(acts)
    case Refused => result.FaultLatched? && SetsNothing(acts)
    case Left => result.AlreadyActive? && SetsNothing(acts)
    case Watched =>
      SetsNothing(acts) && (result.Timeout? || (result.Activated? && ShowsComplete(result.shown.status)))
    case Handed =>
      && (result.Timeout? || (result.Activated? && ShowsComplete(result.shown.status)))
      && (SetsNothing(acts) <==> !Allows(acts)) && (result.Activated? ==> Allows(acts))
  }

  // ------------------------------------------------------------- after the record

  /** Where the call can stand once a record has led to a decision, by whether the handshake was allowed and
      the image has been set. */
  ghost predicate Stage(c: Commander, d: Decision, allowed: bool, wrote: bool) {
    match c
    case Judging(call, r) => d == Decided(call.kind, Some(r)) && !allowed && !wrote
    case Returned(_, result) => Settles(d, result, allowed, wrote)
    case ToWait(_, goal) => Pursues(d, goal, allowed, wrote)
    case Awaiting(_, goal, _) => Pursues(d, goal, allowed, wrote)
    case Resetting(_) => d.Handed? && allowed && !wrote
    case Reactivating(_) => d.Handed? && allowed && wrote
    case Restoring(_) => d.Handed? && allowed && wrote
    case _ => false
  }

  predicate Pursues(d: Decision, goal: Goal, allowed: bool, wrote: bool) {
    || (d.Watched? && goal.ActivationComplete? && !wrote)
    || (d.Handed? && (goal.ActivateClear? || goal.ActivationComplete?) && allowed && wrote)
  }

  predicate Settles(d: Decision, result: Result, allowed: bool, wrote: bool) {
    match d
    case Unanswered => false
    case Refused => result.FaultLatched? && !wrote
    case Left => result.AlreadyActive? && !wrote
    case Watched => !wrote && (result.Timeout? || (result.Activated? && ShowsComplete(result.shown.status)))
    case Handed =>
      && (result.Timeout? || (result.Activated? && ShowsComplete(result.shown.status)))
      && (wrote <==> allowed) && (result.Activated? ==> allowed)
  }

  lemma OthersLeaveCall(s: State, a: Action)
    requires Enabled(s, a) && !a.Commanding?
    ensures Apply(s, a).commander == s.commander
  {
    hide Land, HostView, WakeAll, Checked;
  }

  lemma StageStep(s: State, a: Action, d: Decision, allowed: bool, wrote: bool)
    requires Enabled(s, a) && a != Commanding(Return) && Stage(s.commander, d, allowed, wrote)
    ensures Stage(Apply(s, a).commander, d, allowed || a == Commanding(Judge(true)), wrote || SetsImage(a))
  {
    match a
    case Commanding(c) =>
      hide Cycled, Waited;
      StageMoves(s, c, d, allowed, wrote);
    case _ =>
      OthersLeaveCall(s, a);
      hide Stage, Apply;
  }

  lemma StageMoves(s: State, a: CommandStep, d: Decision, allowed: bool, wrote: bool)
    requires CanCommand(s, a) && !a.Return? && Stage(s.commander, d, allowed, wrote)
    ensures Stage(Commanded(s, a).commander, d, allowed || a == Judge(true), wrote || SetsImage(Commanding(a)))
  {
    if a.Judge? {
      StatusShows(s.commander.record.status);
    } else if a.Observe? {
      StatusShows(s.image.stamped.status);
    }
    hide ShowsMajorFault, ShowsComplete, ShowsInProgress, Status.MajorFault, Status.Activation, Status.Activated;
    hide ActivateBlock, DeactivateBlock;
  }

  lemma {:induction false} StageRuns(s: State, acts: seq<Action>, t: State, d: Decision, allowed: bool, wrote: bool)
    requires Leads(s, acts, t) && WithinCall(acts) && Stage(s.commander, d, allowed, wrote)
    ensures Stage(t.commander, d, allowed || Allows(acts), wrote || !SetsNothing(acts))
    decreases |acts|
  {
    hide Stage, Apply, Enabled, SetsImage;
    if acts != [] {
      var a := acts[0];
      assert a in acts && acts == [a] + acts[1..];
      StageStep(s, a, d, allowed, wrote);
      StageRuns(Apply(s, a), acts[1..], t, d, allowed || a == Commanding(Judge(true)), wrote || SetsImage(a));
    }
  }

  // ------------------------------------------------------------- before it

  /** A call that has not been shown a record waits for one past count, or has given up. */
  ghost predicate Waits(s: State, kind: Kind, count: nat) {
    && s.image.stamped.count >= count
    && match s.commander
       case ToWait(call, goal) => call.kind == kind && goal.AnyExchange?
       case Awaiting(call, goal, desired) => call.kind == kind && goal.AnyExchange? && desired > count
       case Returned(call, result) => call.kind == kind && result.Timeout?
       case _ => false
  }

  lemma WaitsStep(s: State, a: Action, kind: Kind, count: nat)
    requires Enabled(s, a) && a != Commanding(Return) && Waits(s, kind, count)
    ensures !SetsImage(a) && a != Commanding(Judge(true))
    ensures a != Commanding(Observe) ==> Waits(Apply(s, a), kind, count)
    ensures a == Commanding(Observe) ==>
      && s.image.stamped.count > count
      && Stage(Apply(s, a).commander, Decided(kind, Some(s.image.stamped)), false, false)
  {
    StepsForward(s, a);
    match a
    case Commanding(c) =>
      hide Cycled, Waited, Decided;
    case _ =>
      OthersLeaveCall(s, a);
      hide Apply;
  }

  lemma {:induction false} WaitsRuns(s: State, acts: seq<Action>, t: State, kind: Kind, count: nat)
    requires Leads(s, acts, t) && WithinCall(acts) && Waits(s, kind, count) && t.commander.Returned?
    ensures var first := FirstShown(s, acts);
      && (first.Some? ==> first.value.count > count)
      && Answers(Decided(kind, first), t.commander.result, acts)
    decreases |acts|
  {
    assert Decided(kind, None).Unanswered?;
    hide Apply, Enabled, SetsImage, Decided;
    if acts != [] {
      var a, rest := acts[0], acts[1..];
      assert a in acts && acts == [a] + rest;
      WaitsStep(s, a, kind, count);
      if a == Commanding(Observe) {
        StageRuns(Apply(s, a), rest, t, Decided(kind, Some(s.image.stamped)), false, false);
      } else {
        WaitsRuns(Apply(s, a), rest, t, kind, count);
      }
    }
  }

  // ------------------------------------------------------------- the answers

  /** Every run of a call that returns, whatever the device, the wire and the other threads did: the first
      record it is shown was published after it began, and decides as the answers say. */
  lemma FirstRecordDecides(s: State, begin: CommandStep, acts: seq<Action>, t: State)
    requires s.commander.Free? && (begin.BeginActivate? || begin.BeginRecover?)
    requires Leads(Commanded(s, begin), acts, t) && WithinCall(acts) && t.commander.Returned?
    ensures var first := FirstShown(Commanded(s, begin), acts);
      && (first.Some? ==> first.value.count > s.image.stamped.count)
      && Answers(Decided(if begin.BeginActivate? then Activate else Recover, first), t.commander.result, acts)
  {
    var kind := if begin.BeginActivate? then Activate else Recover;
    assert Waits(Commanded(s, begin), kind, s.image.stamped.count) by {
      hide Stale;
    }
    hide *;
    WaitsRuns(Commanded(s, begin), acts, t, kind, s.image.stamped.count);
  }

  /** So a gripper is refused exactly when that record shows a major fault, and left alone exactly when it
      shows none and a complete activation. Neither touches the image. */
  lemma EarlyAnswers(s: State, acts: seq<Action>, t: State)
    requires s.commander.Free?
    requires Leads(Commanded(s, BeginActivate), acts, t) && WithinCall(acts) && t.commander.Returned?
    ensures var first, result := FirstShown(Commanded(s, BeginActivate), acts), t.commander.result;
      && (result.FaultLatched? <==> first.Some? && ShowsMajorFault(first.value.status))
      && (result.AlreadyActive? <==>
           first.Some? && !ShowsMajorFault(first.value.status) && ShowsComplete(first.value.status))
      && (result.FaultLatched? || result.AlreadyActive? ==>
           SetsNothing(acts) && t.image.command == s.image.command)
  {
    FirstRecordDecides(s, BeginActivate, acts, t);
    hide Leads, WithinCall, FirstShown, SetsImage, ShowsMajorFault, ShowsComplete, ShowsInProgress;
    if SetsNothing(acts) {
      HeldFor(Commanded(s, BeginActivate), acts, t);
    }
  }
}
