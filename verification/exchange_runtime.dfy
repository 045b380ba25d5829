/** The gripper runtime as a concurrent protocol: one exchange thread, one commander, any number
    of waiters, one closer and the device, interleaved at every point where no lock is held.
    A locked section, an atomic operation and a wire transaction are one step each. */
module ExchangeRuntime {
  import opened Blocks
  import opened RegisterModel
  import opened ProcessImage
  import opened Wrappers

  const FAULT_THRESHOLD := 3
  const COUNTER_WRAP := 0x1_0000_0000

  datatype Link = Disconnected | Connecting | Operational | Faulted

  datatype LogLine = LinkFaulted | LinkRecovered

  /** How a wire transaction ended; a failed one may still have applied its write. */
  datatype Outcome = Answered(at: int) | FailedLanded | FailedLost

  datatype Cycle = Cycle(block: Command, outcome: Outcome)

  /** Where the exchange thread stands between two steps: at its loop test, past it and due to latch, on
      the wire, and so on. */
  datatype Exchanger =
    | Idle
    | Committed
    | OnWire(block: Command)
    | Replied(block: Command, answer: Status, at: int)
    | CounterCleared(block: Command, answer: Status, at: int)
    | LinkTurned(block: Command, answer: Status, at: int, recovered: bool)
    | Stored(recovered: bool)
    | Notified(recovered: bool)
    | Failed
    | FailureCounted(reached: bool)
    | LinkDegraded(first: bool)
  {
    predicate InReply() { Replied? || CounterCleared? || LinkTurned? }

    /** The block of a cycle that has latched but not yet published. */
    predicate Carries(c: Command) {
      (OnWire? && block == c) || (InReply() && block == c)
    }
  }

  datatype Waiter =
    | Blocked(count: nat, deadline: int)
    | Woken(count: nat, deadline: int)
    | Back(count: nat, deadline: int, record: Record)

  datatype Closer = Open | Stopping | CloseToNotify | Shut

  // ------------------------------------------------------------- the commander

  datatype Kind = Send(sent: Command) | Activate | Recover

  /** What a blocking wait is for. */
  datatype Goal = CarriesBlock(block: Command) | AnyExchange | ActivateClear | ActivationComplete

  predicate Holds(goal: Goal, r: Record) {
    match goal
    case CarriesBlock(block) => r.command == block
    case AnyExchange => true
    case ActivateClear => !r.status.Activated()
    case ActivationComplete => r.status.Activation() == Complete
  }

  datatype Result =
    | Sent(record: Record)
    | Activated(shown: Record)
    | AlreadyActive
    | FaultLatched
    | Timeout

  /** A blocking call in progress. At its start: the image's block, the number of cycles that had
      ended and of records published, and for a send whether a cycle in flight could answer for an
      older send of the same block and further cycles follow it (see SendAndWait). Later: the block the
      handshake saved, and the exchange that showed rACT clear. */
  datatype Call = Call(kind: Kind, entry: Command, from: nat, count: nat, stale: bool,
                       previous: Command, cleared: Option<Record>)

  datatype Commander =
    | Free
    | Sampled(call: Call)
    | ToWait(call: Call, goal: Goal)
    | Awaiting(call: Call, goal: Goal, desired: nat)
    | Judging(call: Call, record: Record)
    | Resetting(call: Call)
    | Reactivating(call: Call)
    | Restoring(call: Call)
    | Returned(call: Call, result: Result)

  /** Finishing activation should not start a motion. */
  function ActivateBlock(previous: Command): Command {
    previous.With(GO_TO, false).With(ACTIVATE, true)
  }

  function DeactivateBlock(previous: Command): Command {
    ActivateBlock(previous).With(ACTIVATE, false)
  }

  // ------------------------------------------------------------------ the state

  /** Beside the program's variables: every cycle in order, the device before and after each of
      them, every record published with the cycle behind it, the failures since the newest record,
      and the number of cycles when the image's block was last set. */
  datatype State = State(
    image: Image, device: Device, exchanger: Exchanger,
    failures: nat, link: Link, log: seq<LogLine>,
    waiters: map<nat, Waiter>, closer: Closer, running: bool, now: int, commander: Commander,
    cycles: seq<Cycle>, devices: seq<Device>, records: seq<Record>, answered: seq<int>,
    failuresSince: nat, heldSince: nat)

  /** Right after initializeImage: the image holds the seed, nothing runs yet. */
  ghost predicate Initial(s: State) {
    && Tracked(s.device)
    && s.image.command == Seed(HostView(s.device.status))
    && s.image.stamped.count == 0 && s.image.stamped.status == HostView(s.device.status)
    && s.image.stamped.command == s.image.command
    && !s.image.closed && s.closer.Open? && s.running
    && s.exchanger.Idle? && s.commander.Free?
    && s.failures == s.failuresSince == 0 && s.link.Operational? && s.log == []
    && s.waiters == map[]
    && s.cycles == [] && s.devices == [s.device] && s.records == [] && s.answered == [] && s.heldSince == 0
  }

  /** The machine's beginning with this image and this device. */
  function Beginning(image: Image, device: Device, now: int): State {
    State(image, device, Idle, 0, Operational, [], map[], Open, true, now, Free, [], [device], [], [], 0, 0)
  }

  /** Steps of the exchange thread. */
  datatype CycleStep =
    | Test | Latch | WireAnswers(at: int) | WireFails(landed: bool)
    | ClearFailures | TurnOperational | Publish | Notify | LogRecovery
    | CountFailure | Degrade | LogFault

  /** Steps of the waiters, of the closer and of time. */
  datatype WaitStep =
    | Sync(waiter: nat, count: nat, deadline: int) | Wake(waiter: nat) | Recheck(waiter: nat) | Leave(waiter: nat)
    | Stop | Close | CloseNotify | Tick(now: int)

  /** Steps of the commander. */
  datatype CommandStep =
    | SetCommand(command: Command)
    | BeginSend(block: Command) | SetBlock
    | BeginActivate | BeginRecover
    | BeginWait | Observe | GiveUp
    | Judge(handshakeAllowed: bool) | SetDeactivate | SetActivate | Restore
    | Return

  datatype Action = Cycling(cycle: CycleStep) | Waiting(wait: WaitStep) | Commanding(step: CommandStep)

  predicate CanCycle(s: State, a: CycleStep) {
    match a
    case Test => s.exchanger.Idle? && s.running
    case Latch => s.exchanger.Committed?
    case WireAnswers(at) => s.exchanger.OnWire? && s.now <= at
    case WireFails(_) => s.exchanger.OnWire?
    case ClearFailures => s.exchanger.Replied?
    case TurnOperational => s.exchanger.CounterCleared?
    case Publish => s.exchanger.LinkTurned?
    case Notify => s.exchanger.Stored?
    case LogRecovery => s.exchanger.Notified?
    case CountFailure => s.exchanger.Failed?
    case Degrade => s.exchanger.FailureCounted?
    case LogFault => s.exchanger.LinkDegraded?
  }

  predicate CanWait(s: State, a: WaitStep) {
    match a
    case Sync(w, _, _) => w !in s.waiters
    case Wake(w) => w in s.waiters && s.waiters[w].Blocked?
    case Recheck(w) => w in s.waiters && s.waiters[w].Woken?
    case Leave(w) => w in s.waiters && s.waiters[w].Back?
    case Stop => s.closer.Open?
    case Close => s.closer.Stopping?
    case CloseNotify => s.closer.CloseToNotify?
    case Tick(now) => s.now <= now
  }

  predicate CanCommand(s: State, a: CommandStep) {
    match a
    case SetCommand(_) => s.commander.Free?
    case BeginSend(_) => s.commander.Free?
    case SetBlock => s.commander.Sampled? && s.commander.call.kind.Send?
    case BeginActivate => s.commander.Free?
    case BeginRecover => s.commander.Free?
    case BeginWait => s.commander.ToWait?
    case Observe => s.commander.Awaiting? && s.image.stamped.count >= s.commander.desired
    case GiveUp => s.commander.Awaiting? && s.image.stamped.count < s.commander.desired
    case Judge(_) => s.commander.Judging?
    case SetDeactivate => s.commander.Resetting?
    case SetActivate => s.commander.Reactivating?
    case Restore => s.commander.Restoring?
    case Return => s.commander.Returned?
  }

  predicate Enabled(s: State, a: Action) {
    match a
    case Cycling(c) => CanCycle(s, c)
    case Waiting(w) => CanWait(s, w)
    case Commanding(c) => CanCommand(s, c)
  }

  /** sync under the lock: return the record, or release the lock and block in one step. */
  function Checked(s: State, count: nat, deadline: int): Waiter {
    if s.image.stamped.count <= count && !s.image.closed && s.now < deadline
    then Blocked(count, deadline)
    else Back(count, deadline, s.image.stamped)
  }

  function WakeAll(waiters: map<nat, Waiter>): map<nat, Waiter> {
    map w | w in waiters ::
      if waiters[w].Blocked? then Woken(waiters[w].count, waiters[w].deadline) else waiters[w]
  }

  function Hold(s: State, c: Command): State {
    s.(image := s.image.(command := c), heldSince := |s.cycles|)
  }

  /** A cycle that has latched but not published carries this very block, while the image by now
      holds other wire bytes. */
  predicate Stale(s: State, block: Command) {
    s.exchanger.Carries(block) && s.image.command.Wire() != block.Wire()
  }

  function Entering(s: State, kind: Kind): Call {
    Call(kind, s.image.command, |s.cycles|, s.image.stamped.count,
         kind.Send? && Stale(s, kind.sent) && s.running, s.image.command, None)
  }

  function Cycled(s: State, a: CycleStep): State
    requires CanCycle(s, a)
  {
    match a
    case Test => s.(exchanger := Committed)
    case Latch => s.(exchanger := OnWire(s.image.command))
    case WireAnswers(at) =>
      var block := s.exchanger.block;
      var device := Land(s.device, block);
      s.(device := device, devices := s.devices + [device], now := at,
         cycles := s.cycles + [Cycle(block, Answered(at))],
         exchanger := Replied(block, HostView(device.status), at))
    case WireFails(landed) =>
      var block := s.exchanger.block;
      var device := if landed then Land(s.device, block) else s.device;
      s.(device := device, devices := s.devices + [device],
         cycles := s.cycles + [Cycle(block, if landed then FailedLanded else FailedLost)],
         exchanger := Failed)
    case ClearFailures =>
      s.(failures := 0, exchanger := CounterCleared(s.exchanger.block, s.exchanger.answer, s.exchanger.at))
    case TurnOperational =>
      s.(link := Operational,
         exchanger := LinkTurned(s.exchanger.block, s.exchanger.answer, s.exchanger.at, s.link.Faulted?))
    case Publish =>
      var image := Published(s.image, s.exchanger.block, s.exchanger.answer, s.exchanger.at);
      s.(image := image, records := s.records + [image.stamped], answered := s.answered + [|s.cycles| - 1],
         failuresSince := 0, exchanger := Stored(s.exchanger.recovered))
    case Notify => s.(waiters := WakeAll(s.waiters), exchanger := Notified(s.exchanger.recovered))
    case LogRecovery =>
      s.(log := if s.exchanger.recovered then s.log + [LinkRecovered] else s.log, exchanger := Idle)
    case CountFailure =>
      var failures := (s.failures + 1) % COUNTER_WRAP;
      s.(failures := failures, failuresSince := s.failuresSince + 1,
         exchanger := FailureCounted(failures >= FAULT_THRESHOLD))
    case Degrade =>
      if s.exchanger.reached
      then s.(link := Faulted, exchanger := LinkDegraded(!s.link.Faulted?))
      else s.(exchanger := Idle)
    case LogFault =>
      s.(log := if s.exchanger.first then s.log + [LinkFaulted] else s.log, exchanger := Idle)
  }

  function Waited(s: State, a: WaitStep): State
    requires CanWait(s, a)
  {
    match a
    case Sync(w, count, deadline) => s.(waiters := s.waiters[w := Checked(s, count, deadline)])
    case Wake(w) => s.(waiters := s.waiters[w := Woken(s.waiters[w].count, s.waiters[w].deadline)])
    case Recheck(w) => s.(waiters := s.waiters[w := Checked(s, s.waiters[w].count, s.waiters[w].deadline)])
    case Leave(w) => s.(waiters := s.waiters - {w})
    case Stop => s.(running := false, closer := Stopping)
    case Close => s.(image := s.image.(closed := true), closer := CloseToNotify)
    case CloseNotify => s.(waiters := WakeAll(s.waiters), closer := Shut)
    case Tick(now) => s.(now := now)
  }

  function Commanded(s: State, a: CommandStep): State
    requires CanCommand(s, a)
  {
    match a
    case SetCommand(c) => Hold(s, c)
    case BeginSend(block) => s.(commander := Sampled(Entering(s, Send(block))))
    case SetBlock =>
      var call := s.commander.call;
      Hold(s, call.kind.sent).(commander := Awaiting(call, CarriesBlock(call.kind.sent), call.count + 1))
    case BeginActivate => s.(commander := ToWait(Entering(s, Activate), AnyExchange))
    case BeginRecover => s.(commander := ToWait(Entering(s, Recover), AnyExchange))
    case BeginWait =>
      s.(commander := Awaiting(s.commander.call, s.commander.goal, s.image.stamped.count + 1))
    case Observe =>
      var r := s.image.stamped;
      s.(commander :=
        if Holds(s.commander.goal, r) then Shown(s.commander.call, s.commander.goal, r)
        else Awaiting(s.commander.call, s.commander.goal, r.count + 1))
    case GiveUp =>
      s.(commander :=
        if s.commander.goal.ActivateClear? then Restoring(s.commander.call)
        else Returned(s.commander.call, Timeout))
    case Judge(allowed) => s.(commander := Judged(s.commander.call, s.commander.record.status, allowed))
    case SetDeactivate =>
      Hold(s, DeactivateBlock(s.image.command))
        .(commander := ToWait(s.commander.call.(previous := s.image.command), ActivateClear))
    case SetActivate =>
      Hold(s, ActivateBlock(s.commander.call.previous)).(commander := ToWait(s.commander.call, ActivationComplete))
    case Restore => Hold(s, s.commander.call.previous).(commander := Returned(s.commander.call, Timeout))
    case Return => s.(commander := Free)
  }

  function Apply(s: State, a: Action): State
    requires Enabled(s, a)
  {
    match a
    case Cycling(c) => Cycled(s, c)
    case Waiting(w) => Waited(s, w)
    case Commanding(c) => Commanded(s, c)
  }

  /** What follows the wait that r ended. */
  function Shown(call: Call, goal: Goal, r: Record): Commander {
    match goal
    case CarriesBlock(_) => Returned(call, Sent(r))
    case AnyExchange => Judging(call, r)
    case ActivateClear => Reactivating(call.(cleared := Some(r)))
    case ActivationComplete => Returned(call, Activated(r))
  }

  /** activate() and recoverFromFault() once the link has proved itself. */
  function Judged(call: Call, status: Status, handshakeAllowed: bool): Commander {
    if call.kind.Activate? && status.MajorFault() then Returned(call, FaultLatched)
    else if call.kind.Activate? && status.Activation() == Complete then Returned(call, AlreadyActive)
    else if call.kind.Activate? && status.Activation() == InProgress then ToWait(call, ActivationComplete)
    else if !handshakeAllowed then Returned(call, Timeout)
    else Resetting(call)
  }

  // ------------------------------------------------------- what a step leaves alone

  /** What only the exchange thread changes. */
  ghost predicate SameCycles(s: State, t: State) {
    && t.exchanger == s.exchanger && t.device == s.device && t.cycles == s.cycles && t.devices == s.devices
    && t.records == s.records && t.answered == s.answered && t.image.stamped == s.image.stamped
    && t.failures == s.failures && t.failuresSince == s.failuresSince && t.link == s.link && t.log == s.log
  }

  lemma WaitsLeaveCycles(s: State, a: WaitStep)
    requires CanWait(s, a)
    ensures SameCycles(s, Waited(s, a))
    ensures var t := Waited(s, a);
      t.commander == s.commander && t.image.command == s.image.command && t.heldSince == s.heldSince
  {
    hide Checked, WakeAll;
  }

  lemma CommandsLeaveCycles(s: State, a: CommandStep)
    requires CanCommand(s, a)
    ensures SameCycles(s, Commanded(s, a))
    ensures var t := Commanded(s, a);
      && t.waiters == s.waiters && t.closer == s.closer && t.running == s.running && t.now == s.now
      && t.image.closed == s.image.closed
  {
    hide Holds, Shown, Judged, Entering, ActivateBlock, DeactivateBlock;
  }

  // ---------------------------------------------------------------------- runs

  /** acts can be taken one after another from s and ends in t. */
  ghost predicate Leads(s: State, acts: seq<Action>, t: State)
    decreases |acts|
  {
    if acts == [] then s == t else Enabled(s, acts[0]) && Leads(Apply(s, acts[0]), acts[1..], t)
  }

  ghost predicate Reachable(t: State) {
    exists s, acts :: Initial(s) && Leads(s, acts, t)
  }

  lemma {:induction false} LeadsFurther(s: State, acts: seq<Action>, t: State, a: Action)
    requires Leads(s, acts, t) && Enabled(t, a)
    ensures Leads(s, acts + [a], Apply(t, a))
    decreases |acts|
  {
    if acts == [] {
      assert ([a])[1..] == [];
    } else {
      LeadsFurther(Apply(s, acts[0]), acts[1..], t, a);
      assert (acts + [a])[1..] == acts[1..] + [a];
    }
  }
}
