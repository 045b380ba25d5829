/** The ThreadX emulation of a condition variable, a counting semaphore and a count of waiters, under the
    mutex of the process image. Any number of threads wait on it and any number notify, each step
    interleaving with the others'. */
module ThreadXCondition {

  /** Where a thread is in `sync` and the `waitUntil` it calls. It holds the mutex while it checks and
      while it registers. */
  datatype WaiterPc = Outside | Checking | Registered | Blocked | Leaving | Relocking
  {
    predicate Holds() { Checking? || Registered? }

    /** Counted by the emulation. */
    predicate Counted() { Registered? || Blocked? || Leaving? }
  }

  /** Where a publisher or a closer is: it changes the image under the mutex and notifies after it. */
  datatype NotifierPc = Idle | Changing | Changed | Loading | Putting(pending: int)
  {
    predicate Holds() { Changing? || Changed? }

    /** It will still put a token, if a waiter is counted. */
    predicate Due() { Changed? || Loading? || (Putting? && pending > 0) }
  }

  datatype Owner = Free | Waiter(w: nat) | Notifier(n: nat)

  /** Events count the changes of the image; a waiter saw those up to its registration. */
  datatype State = State(
    waiters: seq<WaiterPc>, registeredAt: seq<nat>, notifiers: seq<NotifierPc>,
    owner: Owner, count: int, tokens: nat, events: nat)

  datatype Action =
    | Lock(w: nat) | Return(w: nat) | Register(w: nat) | Unlock(w: nat)
    | Take(w: nat) | TimeOut(w: nat) | Deregister(w: nat)
    | Acquire(n: nat) | Change(n: nat) | Release(n: nat) | Load(n: nat) | Put(n: nat) | Finish(n: nat)

  predicate WaiterAt(s: State, w: nat, pc: WaiterPc) {
    w < |s.waiters| == |s.registeredAt| && s.waiters[w] == pc
  }

  predicate NotifierAt(s: State, n: nat, pc: NotifierPc) {
    n < |s.notifiers| && s.notifiers[n] == pc
  }

  predicate Enabled(s: State, a: Action) {
    match a
    case Lock(w) => (WaiterAt(s, w, Outside) || WaiterAt(s, w, Relocking)) && s.owner == Free
    case Return(w) => WaiterAt(s, w, Checking)
    case Register(w) => WaiterAt(s, w, Checking)
    case Unlock(w) => WaiterAt(s, w, Registered)
    case Take(w) => WaiterAt(s, w, Blocked) && s.tokens > 0
    case TimeOut(w) => WaiterAt(s, w, Blocked)
    case Deregister(w) => WaiterAt(s, w, Leaving)
    case Acquire(n) => NotifierAt(s, n, Idle) && s.owner == Free
    case Change(n) => NotifierAt(s, n, Changing)
    case Release(n) => NotifierAt(s, n, Changed)
    case Load(n) => NotifierAt(s, n, Loading)
    case Put(n) => n < |s.notifiers| && s.notifiers[n].Putting? && s.notifiers[n].pending > 0
    case Finish(n) => n < |s.notifiers| && s.notifiers[n].Putting? && s.notifiers[n].pending <= 0
  }

  function MoveWaiter(s: State, w: nat, pc: WaiterPc): State
    requires w < |s.waiters|
  {
    s.(waiters := s.waiters[w := pc])
  }

  function MoveNotifier(s: State, n: nat, pc: NotifierPc): State
    requires n < |s.notifiers|
  {
    s.(notifiers := s.notifiers[n := pc])
  }

  function Apply(s: State, a: Action): State
    requires Enabled(s, a)
  {
    match a
    case Lock(w) => MoveWaiter(s, w, Checking).(owner := Waiter(w))
    case Return(w) => MoveWaiter(s, w, Outside).(owner := Free)
    case Register(w) =>
      MoveWaiter(s, w, Registered).(count := s.count + 1, registeredAt := s.registeredAt[w := s.events])
    case Unlock(w) => MoveWaiter(s, w, Blocked).(owner := Free)
    case Take(w) => MoveWaiter(s, w, Leaving).(tokens := s.tokens - 1)
    case TimeOut(w) => MoveWaiter(s, w, Leaving)
    case Deregister(w) => MoveWaiter(s, w, Relocking).(count := s.count - 1)
    case Acquire(n) => MoveNotifier(s, n, Changing).(owner := Notifier(n))
    case Change(n) => MoveNotifier(s, n, Changed).(events := s.events + 1)
    case Release(n) => MoveNotifier(s, n, Loading).(owner := Free)
    case Load(n) => MoveNotifier(s, n, Putting(s.count))
    case Put(n) => MoveNotifier(s, n, Putting(s.notifiers[n].pending - 1)).(tokens := s.tokens + 1)
    case Finish(n) => MoveNotifier(s, n, Idle)
  }

  ghost predicate Initial(s: State) {
    && |s.registeredAt| == |s.waiters|
    && (forall w | 0 <= w < |s.waiters| :: s.waiters[w] == Outside)
    && (forall n | 0 <= n < |s.notifiers| :: s.notifiers[n] == Idle)
    && s.owner == Free && s.count == 0 && s.tokens == 0 && s.events == 0
  }

  /** A run of enabled steps, and where it ends. */
  ghost predicate Leads(s: State, run: seq<Action>, end: State)
    decreases |run|
  {
    if run == [] then s == end
    else Enabled(s, run[0]) && Leads(Apply(s, run[0]), run[1..], end)
  }

  /** No two threads wait at the same time. */
  ghost predicate Alone(s: State) {
    forall v, w | 0 <= v < |s.waiters| && 0 <= w < |s.waiters| && s.waiters[v].Counted() && s.waiters[w].Counted() ::
      v == w
  }

  ghost predicate AloneThroughout(s: State, run: seq<Action>)
    decreases |run|
  {
    Alone(s) && (run != [] && Enabled(s, run[0]) ==> AloneThroughout(Apply(s, run[0]), run[1..]))
  }

  /** The image changed since the waiter registered. */
  predicate Missed(s: State, w: nat) {
    WaiterAt(s, w, Blocked) && s.events > s.registeredAt[w]
  }

  /** A token is there to be taken, or a notifier that will put one. */
  ghost predicate WakeUpDue(s: State) {
    s.tokens > 0 || exists n | 0 <= n < |s.notifiers| :: s.notifiers[n].Due()
  }

  // ------------------------------------------------------------- invariants

  function Tally(waiters: seq<WaiterPc>): nat {
    if waiters == [] then 0
    else Tally(waiters[..|waiters| - 1]) + if waiters[|waiters| - 1].Counted() then 1 else 0
  }

  lemma {:induction false} TallyMoves(waiters: seq<WaiterPc>, w: nat, pc: WaiterPc)
    requires w < |waiters|
    ensures Tally(waiters[w := pc])
         == Tally(waiters) - (if waiters[w].Counted() then 1 else 0) + (if pc.Counted() then 1 else 0)
    ensures waiters[w].Counted() ==> Tally(waiters) > 0
  {
    var n := |waiters| - 1;
    var moved := waiters[w := pc];
    if w == n {
      assert moved[..n] == waiters[..n];
    } else {
      assert moved[..n] == waiters[..n][w := pc];
      TallyMoves(waiters[..n], w, pc);
    }
  }

  lemma {:induction false} TallyOfNone(waiters: seq<WaiterPc>)
    requires forall w | 0 <= w < |waiters| :: !waiters[w].Counted()
    ensures Tally(waiters) == 0
  {
    if waiters != [] {
      TallyOfNone(waiters[..|waiters| - 1]);
    }
  }

  /** The mutex excludes, and every waiter in the wait is counted once. */
  ghost predicate Inv(s: State) {
    && |s.registeredAt| == |s.waiters|
    && s.count == Tally(s.waiters)
    && (forall w | 0 <= w < |s.waiters| :: s.waiters[w].Holds() <==> s.owner == Waiter(w))
    && (forall n | 0 <= n < |s.notifiers| :: s.notifiers[n].Holds() <==> s.owner == Notifier(n))
    && (forall w | 0 <= w < |s.waiters| :: s.waiters[w] == Registered ==> s.registeredAt[w] == s.events)
  }

  ghost predicate NothingLost(s: State) {
    forall w | 0 <= w < |s.waiters| :: Missed(s, w) ==> WakeUpDue(s)
  }

  predicate ByWaiter(a: Action) {
    a.Lock? || a.Return? || a.Register? || a.Unlock? || a.Take? || a.TimeOut? || a.Deregister?
  }

  lemma InvHolds(s: State, a: Action)
    requires Inv(s) && Enabled(s, a)
    ensures Inv(Apply(s, a))
  {
    hide *;
    if ByWaiter(a) { WaiterKeepsInv(s, a); } else { NotifierKeepsInv(s, a); }
  }

  lemma WaiterKeepsInv(s: State, a: Action)
    requires Inv(s) && Enabled(s, a) && ByWaiter(a)
    ensures Inv(Apply(s, a))
  {
    TallyMoves(s.waiters, a.w, Apply(s, a).waiters[a.w]);
    hide Tally;
  }

  lemma NotifierKeepsInv(s: State, a: Action)
    requires Inv(s) && Enabled(s, a) && !ByWaiter(a)
    ensures Inv(Apply(s, a))
  {
    hide Tally;
  }

  lemma NothingLostHolds(s: State, a: Action)
    requires Inv(s) && Alone(s) && NothingLost(s) && Enabled(s, a)
    ensures NothingLost(Apply(s, a))
  {
    hide Inv, Alone;
    var t := Apply(s, a);
    forall w | 0 <= w < |t.waiters| && Missed(t, w) ensures WakeUpDue(t) {
      WakeUpStaysDue(s, a, w);
    }
  }

  lemma WakeUpStaysDue(s: State, a: Action, w: nat)
    requires Inv(s) && Alone(s) && NothingLost(s) && Enabled(s, a)
    requires Missed(Apply(s, a), w)
    ensures WakeUpDue(Apply(s, a))
  {
    var t := Apply(s, a);
    TallyMoves(s.waiters, w, s.waiters[w]);
    if a.Change? {
      assert t.notifiers[a.n].Due();
    } else {
      assert Missed(s, w);
      assert !a.Take?;
      if s.tokens == 0 {
        var n :| 0 <= n < |s.notifiers| && s.notifiers[n].Due();
        if t.tokens == 0 {
          assert t.notifiers[n].Due();
        }
      }
    }
  }

  lemma {:induction false} RunHolds(s: State, run: seq<Action>, end: State)
    requires Inv(s) && NothingLost(s) && Leads(s, run, end) && AloneThroughout(s, run)
    ensures Inv(end) && NothingLost(end)
    decreases |run|
  {
    if run != [] {
      InvHolds(s, run[0]);
      NothingLostHolds(s, run[0]);
      RunHolds(Apply(s, run[0]), run[1..], end);
    }
  }

  /** While at most one thread waits at a time, a waiter that the image has changed behind has a token to
      take or a notifier that will still give it one. */
  lemma NoLostNotification(s: State, run: seq<Action>, end: State, w: nat)
    requires Initial(s) && Leads(s, run, end) && AloneThroughout(s, run)
    requires Missed(end, w)
    ensures WakeUpDue(end)
  {
    TallyOfNone(s.waiters);
    RunHolds(s, run, end);
  }

  /** Whatever happens on the way from s, no waiter is left behind a change of the image. */
  ghost predicate LosesNothing(s: State) {
    forall run, end, w | Leads(s, run, end) && Missed(end, w) :: WakeUpDue(end)
  }

  /** No notification is lost, on any run, exactly when a single thread ever waits: with more, a token
      can be taken by one it was not meant for. */
  lemma LosesNothingIffOneWaiter(s: State)
    requires Initial(s) && |s.notifiers| > 0
    ensures LosesNothing(s) <==> |s.waiters| <= 1
  {
    if |s.waiters| <= 1 {
      forall run, end, w | Leads(s, run, end) && Missed(end, w) ensures WakeUpDue(end) {
        OneIsAlone(s, run);
        NoLostNotification(s, run, end, w);
      }
    } else {
      var run, end := TokenCanBeStolen(s);
      assert Leads(s, run, end) && Missed(end, 0);
    }
  }

  lemma {:induction false} OneIsAlone(s: State, run: seq<Action>)
    requires |s.waiters| <= 1
    ensures AloneThroughout(s, run)
    decreases |run|
  {
    if run != [] && Enabled(s, run[0]) {
      OneIsAlone(Apply(s, run[0]), run[1..]);
    }
  }

  /** The first two waiters and the first notifier stand here, everyone else where they began. */
  ghost predicate Stands(s: State, from: State, first: WaiterPc, second: WaiterPc, notifier: NotifierPc,
                         count: int, tokens: nat, events: nat) {
    && Initial(from) && |from.waiters| >= 2 && |from.notifiers| >= 1
    && s.waiters == from.waiters[0 := first][1 := second]
    && s.notifiers == from.notifiers[0 := notifier]
    && |s.registeredAt| == |s.waiters|
    && s.owner == Free && s.count == count && s.tokens == tokens && s.events == events
  }

  /** The first waits, the image changes, and before the only token is put the second waits as well and
      takes it: the first stays blocked behind a change with no wake-up due. */
  lemma TokenCanBeStolen(s: State) returns (run: seq<Action>, end: State)
    requires Initial(s) && |s.waiters| >= 2 && |s.notifiers| >= 1
    ensures Leads(s, run, end)
    ensures Missed(end, 0) && !WakeUpDue(end)
  {
    Begins(s);
    hide Leads;
    run, end := FirstWaits(s);
    run, end := ImageChanges(s, run, end);
    run, end := SecondWaits(s, run, end);
    run, end := SecondTakes(s, run, end);
    run, end := SecondWaitsAgain(s, run, end);
  }

  lemma Begins(s: State)
    requires Initial(s) && |s.waiters| >= 2 && |s.notifiers| >= 1
    ensures Leads(s, [], s) && Stands(s, s, Outside, Outside, Idle, 0, 0, 0)
  {
    assert s.waiters[0 := Outside][1 := Outside] == s.waiters;
    assert s.notifiers[0 := Idle] == s.notifiers;
  }

  lemma FirstWaits(s: State) returns (further: seq<Action>, end: State)
    requires Stands(s, s, Outside, Outside, Idle, 0, 0, 0)
    ensures Leads(s, further, end)
    ensures Stands(end, s, Blocked, Outside, Idle, 1, 0, 0) && end.registeredAt[0] == 0
  {
    Begins(s);
    hide Leads;
    further, end := ThreeSteps(s, [], s, Lock(0), Register(0), Unlock(0));
  }

  lemma ImageChanges(s: State, run: seq<Action>, from: State) returns (further: seq<Action>, end: State)
    requires Leads(s, run, from)
    requires Stands(from, s, Blocked, Outside, Idle, 1, 0, 0) && from.registeredAt[0] == 0
    ensures Leads(s, further, end)
    ensures Stands(end, s, Blocked, Outside, Putting(1), 1, 0, 1) && end.registeredAt[0] == 0
  {
    hide Leads;
    further, end := ThreeSteps(s, run, from, Acquire(0), Change(0), Release(0));
    further, end := OneStep(s, further, end, Load(0));
  }

  lemma SecondWaits(s: State, run: seq<Action>, from: State) returns (further: seq<Action>, end: State)
    requires Leads(s, run, from)
    requires Stands(from, s, Blocked, Outside, Putting(1), 1, 0, 1) && from.registeredAt[0] == 0
    ensures Leads(s, further, end)
    ensures Stands(end, s, Blocked, Blocked, Putting(1), 2, 0, 1) && end.registeredAt[0] == 0
  {
    hide Leads;
    further, end := ThreeSteps(s, run, from, Lock(1), Register(1), Unlock(1));
  }

  lemma SecondTakes(s: State, run: seq<Action>, from: State) returns (further: seq<Action>, end: State)
    requires Leads(s, run, from)
    requires Stands(from, s, Blocked, Blocked, Putting(1), 2, 0, 1) && from.registeredAt[0] == 0
    ensures Leads(s, further, end)
    ensures Stands(end, s, Blocked, Relocking, Idle, 1, 0, 1) && end.registeredAt[0] == 0
  {
    hide Leads;
    further, end := ThreeSteps(s, run, from, Put(0), Finish(0), Take(1));
    further, end := OneStep(s, further, end, Deregister(1));
  }

  lemma SecondWaitsAgain(s: State, run: seq<Action>, from: State) returns (further: seq<Action>, end: State)
    requires Leads(s, run, from)
    requires Stands(from, s, Blocked, Relocking, Idle, 1, 0, 1) && from.registeredAt[0] == 0
    ensures Leads(s, further, end)
    ensures Stands(end, s, Blocked, Blocked, Idle, 2, 0, 1) && end.registeredAt[0] == 0
    ensures Missed(end, 0) && !WakeUpDue(end)
  {
    hide Leads;
    further, end := ThreeSteps(s, run, from, Lock(1), Register(1), Unlock(1));
  }

  lemma OneStep(s: State, run: seq<Action>, mid: State, a: Action) returns (further: seq<Action>, end: State)
    requires Leads(s, run, mid) && Enabled(mid, a)
    ensures Leads(s, further, end) && end == Apply(mid, a)
  {
    further, end := run + [a], Apply(mid, a);
    LeadsFurther(s, run, mid, a);
  }

  lemma ThreeSteps(s: State, run: seq<Action>, mid: State, a: Action, b: Action, c: Action)
    returns (further: seq<Action>, end: State)
    requires Leads(s, run, mid) && Enabled(mid, a)
    requires Enabled(Apply(mid, a), b) && Enabled(Apply(Apply(mid, a), b), c)
    ensures Leads(s, further, end) && end == Apply(Apply(Apply(mid, a), b), c)
  {
    further, end := OneStep(s, run, mid, a);
    further, end := OneStep(s, further, end, b);
    further, end := OneStep(s, further, end, c);
  }

  lemma {:induction false} LeadsFurther(s: State, run: seq<Action>, mid: State, a: Action)
    requires Leads(s, run, mid) && Enabled(mid, a)
    ensures Leads(s, run + [a], Apply(mid, a))
    decreases |run|
  {
    var more := run + [a];
    if run == [] {
      assert more[0] == a && more[1..] == [];
    } else {
      assert more[1..] == run[1..] + [a];
      LeadsFurther(Apply(s, run[0]), run[1..], mid, a);
    }
  }

  // ------------------------------------------------------------- a token for each of them

  /** The threads that wait for a token or are about to. */
  function Waiting(waiters: seq<WaiterPc>): nat {
    if waiters == [] then 0
    else
      var last := waiters[|waiters| - 1];
      Waiting(waiters[..|waiters| - 1]) + if last.Registered? || last.Blocked? then 1 else 0
  }

  lemma {:induction false} WaitingMoves(waiters: seq<WaiterPc>, w: nat, pc: WaiterPc)
    requires w < |waiters|
    ensures var before, after := waiters[w], pc;
      Waiting(waiters[w := pc]) == Waiting(waiters)
        - (if before.Registered? || before.Blocked? then 1 else 0)
        + (if after.Registered? || after.Blocked? then 1 else 0)
  {
    var n := |waiters| - 1;
    var moved := waiters[w := pc];
    if w == n {
      assert moved[..n] == waiters[..n];
    } else {
      assert moved[..n] == waiters[..n][w := pc];
      WaitingMoves(waiters[..n], w, pc);
    }
  }

  lemma {:induction false} WaitingAreCounted(waiters: seq<WaiterPc>)
    ensures Waiting(waiters) <= Tally(waiters)
  {
    if waiters != [] {
      WaitingAreCounted(waiters[..|waiters| - 1]);
    }
  }

  /** What the notifier has still to put. */
  function ToPut(s: State, n: nat): nat {
    if n < |s.notifiers| && s.notifiers[n].Putting? && s.notifiers[n].pending > 0 then s.notifiers[n].pending else 0
  }

  lemma StaysCovered(s: State, a: Action, n: nat)
    requires Inv(s) && Enabled(s, a) && !a.Register? && Waiting(s.waiters) <= s.tokens + ToPut(s, n)
    ensures Waiting(Apply(s, a).waiters) <= Apply(s, a).tokens + ToPut(Apply(s, a), n)
  {
    if ByWaiter(a) {
      WaitingMoves(s.waiters, a.w, Apply(s, a).waiters[a.w]);
    }
    hide Inv, Waiting;
  }

  lemma {:induction false} RunCovers(s: State, run: seq<Action>, end: State, n: nat)
    requires Inv(s) && Leads(s, run, end) && (forall a | a in run :: !a.Register?)
    requires Waiting(s.waiters) <= s.tokens + ToPut(s, n)
    ensures Waiting(end.waiters) <= end.tokens + ToPut(end, n)
    decreases |run|
  {
    hide Inv, Waiting, ToPut, Apply, Enabled;
    if run != [] {
      assert run[0] in run;
      StaysCovered(s, run[0], n);
      InvHolds(s, run[0]);
      RunCovers(Apply(s, run[0]), run[1..], end, n);
    }
  }

  lemma {:induction false} RunKeepsInv(s: State, run: seq<Action>, end: State)
    requires Inv(s) && Leads(s, run, end)
    ensures Inv(end)
    decreases |run|
  {
    hide Inv, Apply, Enabled;
    if run != [] {
      InvHolds(s, run[0]);
      RunKeepsInv(Apply(s, run[0]), run[1..], end);
    }
  }

  /** A notification is a token per waiter, however many there are and whoever else notifies or times out:
      until another thread comes to wait, there are as many tokens put or to be put as threads waiting. */
  lemma EveryWaiterHasAToken(s: State, before: seq<Action>, mid: State, n: nat, run: seq<Action>, end: State)
    requires Initial(s) && Leads(s, before, mid) && Enabled(mid, Load(n))
    requires Leads(Apply(mid, Load(n)), run, end) && (forall a | a in run :: !a.Register?)
    ensures Waiting(end.waiters) <= end.tokens + ToPut(end, n)
  {
    TallyOfNone(s.waiters);
    RunKeepsInv(s, before, mid);
    InvHolds(mid, Load(n));
    Loaded(mid, n);
    hide Inv, Apply, Enabled, Waiting, ToPut, Initial;
    RunCovers(Apply(mid, Load(n)), run, end, n);
  }

  lemma Loaded(s: State, n: nat)
    requires Inv(s) && Enabled(s, Load(n))
    ensures var t := Apply(s, Load(n)); Waiting(t.waiters) <= t.tokens + ToPut(t, n)
  {
    WaitingAreCounted(s.waiters);
  }
}
