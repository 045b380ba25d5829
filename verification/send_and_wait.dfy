/** setCommandAndWaitForExchange: when the record it returns proves that the gripper has the block,
    and when it does not. */
module SendAndWait {
  import opened Blocks
  import opened RegisterModel
  import opened ExchangeRuntime
  import opened RuntimeRecords
  import opened RuntimeCommander

  /** The device holds these wire bytes, and nothing already latched, or held by the image for a
      cycle to come, will change them. */
  ghost predicate Agreed(s: State, wire: seq<bv8>) {
    && s.device.command.Wire() == wire
    && (s.running || s.exchanger.Committed? ==> s.image.command.Wire() == wire)
    && (s.exchanger.OnWire? ==> s.exchanger.block.Wire() == wire)
  }

  /** The newest record was published during the call and carries its block. */
  ghost predicate Matched(s: State, call: Call, sent: Command) {
    s.image.stamped.count > call.count && s.image.stamped.command == sent
  }

  /** A send that did not start next to a stale cycle. */
  ghost predicate SendInv(s: State) {
    !s.commander.Free? && s.commander.call.kind.Send? && !s.commander.call.stale ==>
      var call := s.commander.call;
      var sent := call.kind.sent;
      && (s.commander.Sampled? ==>
           && (s.exchanger.Carries(sent) && s.running ==> s.image.command.Wire() == sent.Wire())
           && (Matched(s, call, sent) ==> Agreed(s, sent.Wire())))
      && (s.commander.Awaiting? ==>
           s.image.command == sent && (Matched(s, call, sent) ==> Agreed(s, sent.Wire())))
      && (s.commander.Returned? && s.commander.result.Sent? ==> Agreed(s, sent.Wire()))
  }

  /** Agreement outlasts every step of the other threads. */
  lemma AgreementLasts(s: State, a: CycleStep, wire: seq<bv8>)
    requires CanCycle(s, a) && Agreed(s, wire)
    ensures Agreed(Cycled(s, a), wire)
  {
    if s.exchanger.OnWire? {
      LandTracks(s.device, s.exchanger.block);
    }
    hide Land, HostView, Command.Wire;
  }

  /** The exchange thread keeps a send safe: no step of a cycle undoes an agreement, and publishing
      the block of a reply makes the record, the device and the image agree. */
  lemma ExchangerKeepsSend(s: State, a: CycleStep)
    requires SendInv(s) && CanCycle(s, a) && !a.Publish?
    ensures SendInv(Cycled(s, a))
  {
    hide Land, HostView, Command.Wire, Agreed;
    if !s.commander.Free? && s.commander.call.kind.Send? {
      var wire := s.commander.call.kind.sent.Wire();
      if Agreed(s, wire) {
        AgreementLasts(s, a, wire);
      }
    }
  }

  lemma ReplyIsOnDevice(s: State)
    requires HistoryInv(s) && s.exchanger.InReply()
    ensures s.device.command.Wire() == s.exchanger.block.Wire()
  {
  }

  lemma PublishKeepsSend(s: State)
    requires SendInv(s) && CanCycle(s, Publish) && s.device.command.Wire() == s.exchanger.block.Wire()
    ensures SendInv(Cycled(s, Publish))
  {
    hide Command.Wire;
  }

  lemma SendMoves(s: State, a: CommandStep)
    requires CommanderInv(s) && SendInv(s) && CanCommand(s, a)
    requires |s.records| == s.image.stamped.count
    ensures SendInv(Commanded(s, a))
  {
    hide CallInv, Command.Wire, ActivateBlock, DeactivateBlock, Status.Activation, Status.MajorFault, Status.Activated;
  }

  lemma WaitersKeepSend(s: State, a: WaitStep)
    requires SendInv(s) && CanWait(s, a)
    ensures SendInv(Waited(s, a))
  {
    WaitsLeaveCycles(s, a);
    OnlyStops(s, a);
    hide Waited, Command.Wire;
  }

  lemma OnlyStops(s: State, a: WaitStep)
    requires CanWait(s, a)
    ensures Waited(s, a).running ==> s.running
  {
  }

  lemma SendStep(s: State, a: Action)
    requires HistoryInv(s) && CommanderInv(s) && SendInv(s) && Enabled(s, a)
    ensures SendInv(Apply(s, a))
  {
    assert |s.records| == s.image.stamped.count;
    hide HistoryInv, CommanderInv, SendInv, Cycled, Waited, Commanded;
    match a
    case Commanding(c) =>
      SendMoves(s, c);
    case Waiting(w) =>
      WaitersKeepSend(s, w);
    case Cycling(c) =>
      if c.Publish? {
        ReplyIsOnDevice(s);
        PublishKeepsSend(s);
      } else {
        ExchangerKeepsSend(s, c);
      }
  }
}
