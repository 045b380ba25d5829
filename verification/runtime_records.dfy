/** What every record means, on every run: the nth record pairs the block the nth successful cycle
    latched with the status the device answered to that very write. */
module RuntimeRecords {
  import opened Blocks
  import opened RegisterModel
  import opened ProcessImage
  import opened ExchangeRuntime

  /** How many of the first upto cycles succeeded. */
  function Successes(cycles: seq<Cycle>, upto: nat): nat
    requires upto <= |cycles|
  {
    if upto == 0 then 0
    else Successes(cycles, upto - 1) + if cycles[upto - 1].outcome.Answered? then 1 else 0
  }

  lemma {:induction false} SuccessesPrefix(cycles: seq<Cycle>, more: Cycle, upto: nat)
    requires upto <= |cycles|
    ensures Successes(cycles + [more], upto) == Successes(cycles, upto)
  {
    if upto > 0 {
      SuccessesPrefix(cycles, more, upto - 1);
    }
  }

  /** The device after one cycle: only a lost write leaves it alone. */
  function AfterCycle(d: Device, c: Cycle): Device {
    if c.outcome.FailedLost? then d else Land(d, c.block)
  }

  /** Record n (from 0) belongs to cycle i. */
  ghost predicate Records(r: Record, n: nat, i: int, cycles: seq<Cycle>, devices: seq<Device>)
    requires |devices| == |cycles| + 1
  {
    && 0 <= i < |cycles|
    && cycles[i].outcome.Answered?
    && Successes(cycles, i) == n
    && r == Record(n + 1, cycles[i].outcome.at, cycles[i].block, HostView(devices[i + 1].status))
  }

  /** The device's past is its starting state with every landed write applied, in order. */
  ghost predicate Faithful(cycles: seq<Cycle>, devices: seq<Device>) {
    && |devices| == |cycles| + 1
    && Tracked(devices[0])
    && (forall i :: 0 <= i < |cycles| ==> devices[i + 1] == AfterCycle(devices[i], cycles[i]))
    && (forall i :: 0 <= i < |devices| ==> Tracked(devices[i]))
  }

  /** Every record published so far, and where its cycle is. */
  ghost predicate AllRecords(records: seq<Record>, answered: seq<int>, cycles: seq<Cycle>, devices: seq<Device>) {
    && |devices| == |cycles| + 1
    && |records| == |answered|
    && (forall n :: 0 <= n < |records| ==> Records(records[n], n, answered[n], cycles, devices))
    && (forall m, n :: 0 <= m < n < |answered| ==> answered[m] < answered[n])
  }

  /** A cycle between its answer and its publication is the only successful one without a record. */
  ghost predicate ReplyPending(s: State) {
    if s.exchanger.InReply() then
      && |s.cycles| > 0
      && s.cycles[|s.cycles| - 1] == Cycle(s.exchanger.block, Answered(s.exchanger.at))
      && s.exchanger.answer == HostView(s.device.status)
      && s.device.command.Wire() == s.exchanger.block.Wire()
      && Successes(s.cycles, |s.cycles| - 1) == |s.records|
      && (forall n :: 0 <= n < |s.answered| ==> s.answered[n] < |s.cycles| - 1)
    else Successes(s.cycles, |s.cycles|) == |s.records|
  }

  ghost predicate HistoryInv(s: State) {
    && Faithful(s.cycles, s.devices) && s.device == s.devices[|s.cycles|]
    && AllRecords(s.records, s.answered, s.cycles, s.devices)
    && s.image.stamped.count == |s.records|
    && (s.records != [] ==> s.image.stamped == s.records[|s.records| - 1])
    && ReplyPending(s)
  }

  lemma HistoryHolds(s: State)
    requires Initial(s)
    ensures HistoryInv(s)
  {
  }

  lemma LandTracks(d: Device, c: Command)
    ensures Tracked(d) ==> Tracked(Land(d, c))
    ensures Land(d, c).command.Wire() == c.Wire()
  {
  }

  lemma FaithfulGrows(cycles: seq<Cycle>, devices: seq<Device>, c: Cycle, d: Device)
    requires Faithful(cycles, devices) && d == AfterCycle(devices[|cycles|], c)
    ensures Faithful(cycles + [c], devices + [d])
  {
    hide Land, Tracked;
    LandTracks(devices[|cycles|], c.block);
  }

  lemma RecordsGrow(s: State, c: Cycle, d: Device)
    requires HistoryInv(s)
    ensures AllRecords(s.records, s.answered, s.cycles + [c], s.devices + [d])
  {
    hide Land, Tracked, HostView;
    forall n | 0 <= n < |s.records|
      ensures Records(s.records[n], n, s.answered[n], s.cycles + [c], s.devices + [d])
    {
      assert Records(s.records[n], n, s.answered[n], s.cycles, s.devices);
      SuccessesPrefix(s.cycles, c, s.answered[n]);
    }
  }

  lemma ReplyFollows(s: State, a: CycleStep)
    requires ReplyPending(s) && CanCycle(s, a) && (a.WireAnswers? || a.WireFails?)
    requires forall n :: 0 <= n < |s.answered| ==> s.answered[n] < |s.cycles|
    ensures ReplyPending(Cycled(s, a))
  {
    var c := Cycled(s, a).cycles[|s.cycles|];
    SuccessesPrefix(s.cycles, c, |s.cycles|);
    LandTracks(s.device, c.block);
    hide Land, HostView;
  }

  lemma CycleEnds(s: State, a: CycleStep)
    requires HistoryInv(s) && CanCycle(s, a) && (a.WireAnswers? || a.WireFails?)
    ensures HistoryInv(Cycled(s, a))
  {
    hide Land, Tracked, HostView;
    ReplyFollows(s, a);
    var t := Cycled(s, a);
    var c := t.cycles[|s.cycles|];
    FaithfulGrows(s.cycles, s.devices, c, t.device);
    RecordsGrow(s, c, t.device);
    hide Faithful, AllRecords, ReplyPending;
  }

  /** A step that touches neither the history nor a reply in flight. */
  ghost predicate SameHistory(s: State, t: State) {
    && t.cycles == s.cycles && t.devices == s.devices && t.device == s.device
    && t.records == s.records && t.answered == s.answered && t.image.stamped == s.image.stamped
    && t.exchanger.InReply() == s.exchanger.InReply()
    && (t.exchanger.InReply() ==>
         && t.exchanger.block == s.exchanger.block
         && t.exchanger.answer == s.exchanger.answer
         && t.exchanger.at == s.exchanger.at)
  }

  lemma MostStepsKeepHistory(s: State, a: Action)
    requires Enabled(s, a)
    requires a.Cycling? ==> !a.cycle.WireAnswers? && !a.cycle.WireFails? && !a.cycle.Publish?
    ensures SameHistory(s, Apply(s, a))
  {
    hide Cycled, Waited, Commanded, SameHistory;
    match a
    case Cycling(c) => MostCyclesKeepHistory(s, c);
    case Waiting(w) => WaitsLeaveCycles(s, w); LeftAlone(s, Waited(s, w));
    case Commanding(c) => CommandsLeaveCycles(s, c); LeftAlone(s, Commanded(s, c));
  }

  lemma LeftAlone(s: State, t: State)
    requires SameCycles(s, t)
    ensures SameHistory(s, t)
  {
  }

  lemma MostCyclesKeepHistory(s: State, a: CycleStep)
    requires CanCycle(s, a) && !a.WireAnswers? && !a.WireFails? && !a.Publish?
    ensures SameHistory(s, Cycled(s, a))
  {
    hide Land, HostView, WakeAll;
  }

  lemma Publishes(s: State)
    requires HistoryInv(s) && CanCycle(s, Publish)
    ensures HistoryInv(Cycled(s, Publish))
  {
    var t := Cycled(s, Publish);
    var last := |s.cycles| - 1;
    assert Successes(s.cycles, last + 1) == Successes(s.cycles, last) + 1;
    hide Successes, Land, Faithful, HostView, AllRecords;
    assert Records(t.image.stamped, |s.records|, last, s.cycles, s.devices);
    RecordAppended(s.records, s.answered, s.cycles, s.devices, t.image.stamped, last);
  }

  lemma RecordAppended(records: seq<Record>, answered: seq<int>, cycles: seq<Cycle>, devices: seq<Device>,
                       r: Record, i: int)
    requires AllRecords(records, answered, cycles, devices)
    requires Records(r, |records|, i, cycles, devices)
    requires forall n :: 0 <= n < |answered| ==> answered[n] < i
    ensures AllRecords(records + [r], answered + [i], cycles, devices)
  {
    hide Records;
  }

  lemma HistoryStep(s: State, a: Action)
    requires HistoryInv(s) && Enabled(s, a)
    ensures HistoryInv(Apply(s, a))
  {
    if a.Cycling? && (a.cycle.WireAnswers? || a.cycle.WireFails?) {
      hide HistoryInv, Cycled;
      CycleEnds(s, a.cycle);
    } else if a.Cycling? && a.cycle.Publish? {
      hide HistoryInv, Cycled;
      Publishes(s);
    } else {
      MostStepsKeepHistory(s, a);
      hide Apply, Faithful, AllRecords, Successes;
    }
  }
}
