/** Link health and the wait/notify protocol, at every interleaving point of every run. */
module RuntimeWaits {
  import opened RegisterModel
  import opened ExchangeRuntime

  // ------------------------------------------------------------------ link health

  /** Fault and recovery lines strictly alternate, a fault first. */
  predicate Alternating(log: seq<LogLine>) {
    forall i :: 0 <= i < |log| ==> (log[i].LinkFaulted? <==> i % 2 == 0)
  }

  /** Whether the log's last word is that the link is down. */
  predicate LoggedDown(log: seq<LogLine>) { |log| % 2 == 1 }

  /** The failures at the end of the history: those since the last success, or since the seed. */
  function Trailing(cycles: seq<Cycle>): nat {
    if cycles == [] || cycles[|cycles| - 1].outcome.Answered? then 0
    else 1 + Trailing(cycles[..|cycles| - 1])
  }

  /** failuresSince follows the history one step behind: it counts in the failure path and is
      cleared when a record is published. */
  ghost predicate CountInv(s: State) {
    if s.exchanger.Failed? then s.failuresSince + 1 == Trailing(s.cycles)
    else if s.exchanger.InReply() then Trailing(s.cycles) == 0
    else s.failuresSince == Trailing(s.cycles)
  }

  lemma CountCycled(s: State, a: CycleStep)
    requires CountInv(s) && CanCycle(s, a)
    ensures CountInv(Cycled(s, a))
  {
    if a.WireAnswers? || a.WireFails? {
      hide Land, HostView;
      var t := Cycled(s, a);
      assert t.cycles[..|t.cycles| - 1] == s.cycles;
    } else {
      hide Land, HostView, Trailing;
    }
  }

  ghost predicate LinkInv(s: State) {
    var f := s.failuresSince;
    var down := s.link.Faulted?;
    && Alternating(s.log)
    && (s.link.Operational? || s.link.Faulted?)
    && match s.exchanger
       case FailureCounted(reached) =>
         && f >= 1 && s.failures == f % COUNTER_WRAP && reached == (s.failures >= FAULT_THRESHOLD)
         && down == (f - 1 >= FAULT_THRESHOLD) && LoggedDown(s.log) == down
       case LinkDegraded(first) =>
         && s.failures == f % COUNTER_WRAP && down && f >= FAULT_THRESHOLD
         && first == (f == FAULT_THRESHOLD) && LoggedDown(s.log) == !first
       case CounterCleared(_, _, _) =>
         s.failures == 0 && down == (f >= FAULT_THRESHOLD) && LoggedDown(s.log) == down
       case LinkTurned(_, _, _, recovered) =>
         s.failures == 0 && !down && recovered == (f >= FAULT_THRESHOLD) && LoggedDown(s.log) == recovered
       case Stored(recovered) => s.failures == f == 0 && !down && LoggedDown(s.log) == recovered
       case Notified(recovered) => s.failures == f == 0 && !down && LoggedDown(s.log) == recovered
       case _ =>
         s.failures == f % COUNTER_WRAP && down == (f >= FAULT_THRESHOLD) && LoggedDown(s.log) == down
  }

  lemma LogGrows(s: State, c: CycleStep)
    requires LinkInv(s) && CanCycle(s, c) && (c.LogFault? || c.LogRecovery?)
    ensures LinkInv(Cycled(s, c))
  {
    hide Land, HostView;
  }

  lemma FailureCounts(s: State)
    requires LinkInv(s) && CanCycle(s, CountFailure)
    ensures LinkInv(Cycled(s, CountFailure))
  {
    var f := s.failuresSince;
    assert (f % COUNTER_WRAP + 1) % COUNTER_WRAP == (f + 1) % COUNTER_WRAP;
    hide Alternating, LoggedDown;
  }

  lemma LinkCycled(s: State, a: CycleStep)
    requires LinkInv(s) && CanCycle(s, a)
    ensures LinkInv(Cycled(s, a))
  {
    if a.CountFailure? {
      FailureCounts(s);
    } else if a.LogFault? || a.LogRecovery? {
      LogGrows(s, a);
    } else {
      hide Land, HostView, Alternating, LoggedDown;
    }
  }

  /** The other threads touch neither the counter nor the link. */
  lemma OthersLeaveLink(s: State, a: Action)
    requires Enabled(s, a) && !a.Cycling?
    ensures SameCycles(s, Apply(s, a))
  {
    hide Cycled, Waited, Commanded, SameCycles;
    if a.Waiting? { WaitsLeaveCycles(s, a.wait); } else { CommandsLeaveCycles(s, a.step); }
  }

  lemma LinkStep(s: State, a: Action)
    requires LinkInv(s) && CountInv(s) && Enabled(s, a)
    ensures LinkInv(Apply(s, a)) && CountInv(Apply(s, a))
  {
    if a.Cycling? {
      hide LinkInv, CountInv, Cycled;
      LinkCycled(s, a.cycle);
      CountCycled(s, a.cycle);
    } else {
      OthersLeaveLink(s, a);
      hide Apply, Alternating, LoggedDown, Trailing;
    }
  }

  // ----------------------------------------------------------- waiting and waking

  /** Someone still owes the waiters a notifyAll. */
  predicate NotificationDue(s: State) { s.exchanger.Stored? || s.closer.CloseToNotify? }

  /** No missed wake-up, and nothing returns from sync for no reason. */
  ghost predicate WaiterInv(s: State) {
    && (forall w | w in s.waiters && s.waiters[w].Blocked? ::
         s.image.stamped.count > s.waiters[w].count || s.image.closed ==> NotificationDue(s))
    && (forall w | w in s.waiters && s.waiters[w].Back? ::
         || s.waiters[w].record.count > s.waiters[w].count
         || s.image.closed
         || s.now >= s.waiters[w].deadline)
    && (s.closer.CloseToNotify? || s.closer.Shut? <==> s.image.closed)
  }

  lemma WaitersCycled(s: State, a: CycleStep)
    requires WaiterInv(s) && CanCycle(s, a)
    ensures WaiterInv(Cycled(s, a))
  {
    hide Land, HostView;
  }

  lemma WaitersWaited(s: State, a: WaitStep)
    requires WaiterInv(s) && CanWait(s, a)
    ensures WaiterInv(Waited(s, a))
  {
  }

  lemma WaiterStep(s: State, a: Action)
    requires WaiterInv(s) && Enabled(s, a)
    ensures WaiterInv(Apply(s, a))
  {
    hide Cycled, Waited, Commanded;
    match a
    case Cycling(c) =>
      WaitersCycled(s, c);
    case Waiting(w) =>
      WaitersWaited(s, w);
    case Commanding(c) =>
      CommandsLeaveCycles(s, c);
  }

  /** A notification leaves no waiter asleep. */
  lemma NotifyWakesEveryone(s: State, a: Action)
    requires Enabled(s, a) && (a == Cycling(Notify) || a == Waiting(CloseNotify))
    ensures forall w | w in Apply(s, a).waiters :: !Apply(s, a).waiters[w].Blocked?
  {
  }
}
