/** The exchange thread's own code, run without anyone in between: each pass is a run of the machine's
    steps, and what initializeImage leaves is a state the machine starts from. */
module ExchangeThread {
  import opened Blocks
  import opened RegisterModel
  import opened ProcessImage
  import opened ExchangeRuntime

  const INITIAL_READ_ATTEMPTS := 3

  class GripperState {
    const image: LockedImage
    const gripper: Model
    var consecutiveFailures: nat
    var connectionState: Link
    var log: seq<LogLine>

    ghost predicate Valid()
      reads gripper
    {
      gripper.Valid()
    }

    /** The machine's state has this object's fields, the image's and the gripper's. */
    ghost predicate Shows(s: State)
      requires Valid()
      reads this, image, gripper, gripper.registers
    {
      && s.image == image.View() && s.device == gripper.View()
      && s.failures == consecutiveFailures && s.link == connectionState && s.log == log
    }

    constructor (image: LockedImage, gripper: Model)
      requires gripper.Valid()
      ensures Valid() && this.image == image && this.gripper == gripper
      ensures consecutiveFailures == 0 && connectionState == Connecting && log == []
    {
      this.image, this.gripper := image, gripper;
      consecutiveFailures, connectionState, log := 0, Connecting, [];
    }

    /** Up to three reads of the status, and the image seeded from the first that comes back. */
    method InitializeImage(answers: nat -> bool, at: int) returns (ok: bool)
      requires Valid() && consecutiveFailures == 0 && log == [] && !image.closed
      modifies this, image
      ensures Valid() && gripper.View() == old(gripper.View())
      ensures ok <==> answers(1) || answers(2) || answers(3)
      ensures ok ==> forall now :: var s := Beginning(image.View(), gripper.View(), now); Initial(s) && Shows(s)
      ensures ok ==>
        var c, shown := image.command, gripper.View().status;
        && c.action & 0x01 == shown.flags & 0x01 && c.action & 0x08 == shown.flags & 0x08 && c.action & 0xF6 == 0
        && c.reserved1 == c.reserved2 == 0 && c.positionRequest == shown.positionRequestEcho
        && c.speed == c.force == 0xFF && c.tail == ZERO_TAIL
      ensures !ok ==> image.View() == old(image.View()) && connectionState == old(connectionState)
    {
      var first: Status;
      var attempt := 1;
      while true
        invariant 1 <= attempt <= INITIAL_READ_ATTEMPTS
        invariant forall k | 1 <= k < attempt :: !answers(k)
        decreases INITIAL_READ_ATTEMPTS - attempt
      {
        if answers(attempt) {
          first := gripper.ReadWire();
          break;
        }
        if attempt >= INITIAL_READ_ATTEMPTS {
          return false;
        }
        attempt := attempt + 1;
      }
      var command := Defaults();
      command := command.With(ACTIVATE, first.Activated());
      command := command.With(GO_TO, first.GoToEnabled());
      command := command.(positionRequest := first.positionRequestEcho);
      image.Seed(first, at, command);
      connectionState := Operational;
      ok := true;
    }

    /** One cycle. A failed exchange throws, whether or not its write reached the gripper. */
    method ExchangeOnce(outcome: Outcome, ghost s: State) returns (threw: bool, ghost t: State, ghost acts: seq<Action>)
      requires Valid() && Shows(s) && s.exchanger.Committed?
      requires outcome.Answered? ==> s.now <= outcome.at
      modifies this, image, gripper, gripper.registers
      ensures Valid() && Shows(t) && t.exchanger.Idle? && t.cycles == s.cycles + [Cycle(s.image.command, outcome)]
      ensures Leads(s, acts, t) && AllCycling(acts)
      ensures threw <==> !outcome.Answered?
    {
      hide Leads, AllCycling, Land, React, HostView, WakeAll, Model.View, LockedImage.View;
      acts, t := [], s;
      Begins(s);
      var commandCopy := image.Command();
      acts, t := Then(s, acts, t, Latch);
      var freshStatus: Status;
      var completedAt: int;
      if outcome.FailedLanded? || outcome.Answered? {
        freshStatus := gripper.Exchange(commandCopy);
      }
      if !outcome.Answered? {
        acts, t := Then(s, acts, t, WireFails(outcome.FailedLanded?));
        acts, t := Catch(s, acts, t);
        return true, t, acts;
      }
      completedAt := outcome.at;
      acts, t := Then(s, acts, t, WireAnswers(completedAt));
      acts, t := Accept(commandCopy, freshStatus, completedAt, s, acts, t);
      threw := false;
    }

    /** What an answered exchange leaves: the state turns before the record that announces it. */
    method Accept(commandCopy: Command, freshStatus: Status, completedAt: int,
                  ghost s: State, ghost before: seq<Action>, ghost replied: State)
      returns (ghost acts: seq<Action>, ghost t: State)
      requires Valid() && Shows(replied) && Leads(s, before, replied) && AllCycling(before)
      requires replied.exchanger == Replied(commandCopy, freshStatus, completedAt)
      modifies this, image
      ensures Valid() && Shows(t) && t.exchanger.Idle? && t.cycles == replied.cycles
      ensures Leads(s, acts, t) && AllCycling(acts)
    {
      hide Leads, AllCycling, Land, React, HostView, WakeAll, Model.View, LockedImage.View;
      acts, t := before, replied;
      consecutiveFailures := 0;
      acts, t := Then(s, acts, t, ClearFailures);
      var recovered := connectionState == Faulted;
      connectionState := Operational;
      acts, t := Then(s, acts, t, TurnOperational);
      acts, t := Announce(commandCopy, freshStatus, completedAt, recovered, s, acts, t);
    }

    /** The record, its notification, and the log line of a recovery. */
    method Announce(commandCopy: Command, freshStatus: Status, completedAt: int, recovered: bool,
                    ghost s: State, ghost before: seq<Action>, ghost turned: State)
      returns (ghost acts: seq<Action>, ghost t: State)
      requires Valid() && Shows(turned) && Leads(s, before, turned) && AllCycling(before)
      requires turned.exchanger == LinkTurned(commandCopy, freshStatus, completedAt, recovered)
      modifies this`log, image
      ensures Valid() && Shows(t) && t.exchanger.Idle? && t.cycles == turned.cycles
      ensures Leads(s, acts, t) && AllCycling(acts)
    {
      hide Leads, AllCycling, Land, React, HostView, WakeAll, Model.View, LockedImage.View;
      acts, t := before, turned;
      image.Publish(commandCopy, freshStatus, completedAt);
      acts, t := Then(s, acts, t, Publish);
      acts, t := Then(s, acts, t, Notify);
      if recovered {
        log := log + [LinkRecovered];
      }
      acts, t := Then(s, acts, t, LogRecovery);
    }

    /** What a failed exchange leaves. */
    method Catch(ghost s: State, ghost before: seq<Action>, ghost failed: State)
      returns (ghost acts: seq<Action>, ghost t: State)
      requires Valid() && Shows(failed) && failed.exchanger == Failed && Leads(s, before, failed) && AllCycling(before)
      modifies this
      ensures Valid() && Shows(t) && t.exchanger.Idle? && t.cycles == failed.cycles
      ensures Leads(s, acts, t) && AllCycling(acts)
    {
      hide Leads, AllCycling, Land, React, HostView, WakeAll, Model.View, LockedImage.View;
      acts, t := before, failed;
      consecutiveFailures := (consecutiveFailures + 1) % COUNTER_WRAP;
      acts, t := Then(s, acts, t, CountFailure);
      if consecutiveFailures >= FAULT_THRESHOLD {
        var was := connectionState;
        connectionState := Faulted;
        acts, t := Then(s, acts, t, Degrade);
        if was != Faulted {
          log := log + [LinkFaulted];
        }
        acts, t := Then(s, acts, t, LogFault);
      } else {
        acts, t := Then(s, acts, t, Degrade);
      }
    }
  }

  /** Only the exchange thread steps. */
  ghost predicate AllCycling(acts: seq<Action>) {
    forall a | a in acts :: a.Cycling?
  }

  lemma Begins(s: State)
    ensures Leads(s, [], s) && AllCycling([])
  {
  }

  lemma Then(s: State, acts: seq<Action>, t: State, a: CycleStep) returns (further: seq<Action>, next: State)
    requires Leads(s, acts, t) && AllCycling(acts) && CanCycle(t, a)
    ensures Leads(s, further, next) && AllCycling(further) && next == Cycled(t, a)
  {
    further, next := acts + [Cycling(a)], Cycled(t, a);
    LeadsFurther(s, acts, t, Cycling(a));
  }
}
