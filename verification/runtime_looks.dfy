/** The waits of process_image.dfy inside the runtime: what a thread sees of a run is a lawful world, and
    the wait loop run in it is the commander's steps of the machine. */
module RuntimeLooks {
  import opened Wrappers
  import opened RegisterModel
  import opened ProcessImage
  import opened ExchangeRuntime
  import opened RuntimeTheorems

  // ------------------------------------------------------------- a run as a world

  /** The states a thread finds at its looks, and the steps of the run between them. */
  ghost predicate Follows(trace: nat -> State, between: nat -> seq<Action>) {
    forall i: nat :: Leads(trace(i), between(i), trace(i + 1))
  }

  function WorldOf(trace: nat -> State): Timeline {
    (i: nat) => Moment(trace(i).image, trace(i).now)
  }

  lemma {:induction false} LooksGoForward(trace: nat -> State, between: nat -> seq<Action>, i: nat, j: nat)
    requires Follows(trace, between) && i <= j
    ensures NotBefore(trace(i), trace(j))
    decreases j - i
  {
    if i < j {
      assert Leads(trace(i), between(i), trace(i + 1));
      RunsAreLawful(trace(i), between(i), trace(i + 1));
      LooksGoForward(trace, between, i + 1, j);
    }
  }

  /** Every run of the runtime is lawful to the threads that look at it. */
  lemma LooksAreLawful(trace: nat -> State, between: nat -> seq<Action>)
    requires Follows(trace, between)
    ensures Lawful(WorldOf(trace))
  {
    var world := WorldOf(trace);
    forall i: nat, j: nat {:trigger world(i), world(j)} | i <= j
      ensures
        && world(i).now <= world(j).now
        && world(i).image.stamped.count <= world(j).image.stamped.count
        && (world(i).image.stamped.count == world(j).image.stamped.count ==>
              world(i).image.stamped == world(j).image.stamped)
        && (world(i).image.closed ==> world(j).image.closed)
    {
      LooksGoForward(trace, between, i, j);
    }
  }

  function Publishes(acts: seq<Action>): nat {
    if acts == [] then 0 else (if acts[0] == Cycling(Publish) then 1 else 0) + Publishes(acts[1..])
  }

  lemma OneStepCounts(s: State, a: Action)
    requires Enabled(s, a)
    ensures Apply(s, a).image.stamped.count == s.image.stamped.count + if a == Cycling(Publish) then 1 else 0
  {
    hide Cycled, Waited, Commanded;
    match a
    case Cycling(c) => OneCycleCounts(s, c);
    case Waiting(w) => WaitsLeaveCycles(s, w);
    case Commanding(c) => CommandsLeaveCycles(s, c);
  }

  lemma OneCycleCounts(s: State, a: CycleStep)
    requires CanCycle(s, a)
    ensures Cycled(s, a).image.stamped.count == s.image.stamped.count + if a == Publish then 1 else 0
  {
    hide Land, HostView, WakeAll;
  }

  /** The count at a look is the number of publishes: a difference of two is two of them. */
  lemma {:induction false} CountsArePublishes(s: State, acts: seq<Action>, t: State)
    requires Leads(s, acts, t)
    ensures t.image.stamped.count == s.image.stamped.count + Publishes(acts)
    decreases |acts|
  {
    if acts != [] {
      OneStepCounts(s, acts[0]);
      hide Apply, Enabled;
      CountsArePublishes(Apply(s, acts[0]), acts[1..], t);
    }
  }

  // ------------------------------------------------------------- the others do not mind

  /** No other thread depends on where the commander stands. */
  lemma OthersIgnoreCommander(s: State, a: Action, c: Commander)
    requires Enabled(s, a) && !a.Commanding?
    ensures Enabled(s.(commander := c), a)
    ensures Apply(s.(commander := c), a) == Apply(s, a).(commander := c)
  {
    hide CanCycle, CanWait, Cycled, Waited;
    match a
    case Cycling(step) =>
      if step.WireAnswers? || step.WireFails? || step.Publish? || step.Latch? {
        WireIgnoresCommander(s, step, c);
      } else {
        CycleIgnoresCommander(s, step, c);
      }
    case Waiting(step) => WaitIgnoresCommander(s, step, c);
  }

  lemma WireIgnoresCommander(s: State, a: CycleStep, c: Commander)
    requires CanCycle(s, a) && (a.WireAnswers? || a.WireFails? || a.Publish? || a.Latch?)
    ensures CanCycle(s.(commander := c), a)
    ensures Cycled(s.(commander := c), a) == Cycled(s, a).(commander := c)
  {
    hide Land, HostView;
  }

  lemma CycleIgnoresCommander(s: State, a: CycleStep, c: Commander)
    requires CanCycle(s, a) && !a.WireAnswers? && !a.WireFails? && !a.Publish? && !a.Latch?
    ensures CanCycle(s.(commander := c), a)
    ensures Cycled(s.(commander := c), a) == Cycled(s, a).(commander := c)
  {
    hide WakeAll;
  }

  lemma WaitIgnoresCommander(s: State, a: WaitStep, c: Commander)
    requires CanWait(s, a)
    ensures CanWait(s.(commander := c), a)
    ensures Waited(s.(commander := c), a) == Waited(s, a).(commander := c)
  {
    hide WakeAll;
  }

  lemma {:induction false} RunIgnoresCommander(s: State, acts: seq<Action>, t: State, c: Commander)
    requires Leads(s, acts, t) && forall a | a in acts :: !a.Commanding?
    ensures Leads(s.(commander := c), acts, t.(commander := c))
    decreases |acts|
  {
    if acts != [] {
      assert acts[0] in acts;
      OthersIgnoreCommander(s, acts[0], c);
      hide Apply, Enabled;
      RunIgnoresCommander(Apply(s, acts[0]), acts[1..], t, c);
    }
  }

  /** Between the looks only the others step. */
  ghost predicate OthersOnly(between: nat -> seq<Action>) {
    forall i: nat, a | a in between(i) :: !a.Commanding?
  }

  /** The run from one look to a later one, the commander standing still. */
  lemma {:induction false} Meanwhile(trace: nat -> State, between: nat -> seq<Action>, i: nat, j: nat, c: Commander)
    returns (acts: seq<Action>)
    requires Follows(trace, between) && OthersOnly(between) && i <= j
    ensures Leads(trace(i).(commander := c), acts, trace(j).(commander := c))
    decreases j - i
  {
    acts := [];
    if i < j {
      assert Leads(trace(i), between(i), trace(i + 1));
      RunIgnoresCommander(trace(i), between(i), trace(i + 1), c);
      acts := Meanwhile(trace, between, i + 1, j, c);
      hide Leads;
      LeadsOn(trace(i).(commander := c), between(i), trace(i + 1).(commander := c), acts, trace(j).(commander := c));
      acts := between(i) + acts;
    }
  }

  // ------------------------------------------------------------- the wait is the machine's

  /** Where the commander stands once these records were handed to it and none met the goal. */
  function StillAwaiting(call: Call, goal: Goal, handed: seq<Record>, afterCount: nat): Commander {
    Awaiting(call, goal, NewestCount(handed, afterCount) + 1)
  }

  /** One hand-over is one Observe. */
  lemma HandOverIsObserve(s: State, call: Call, goal: Goal, handed: seq<Record>, afterCount: nat, r: Record)
    requires s.commander == StillAwaiting(call, goal, handed, afterCount)
    requires r == s.image.stamped && r.count > NewestCount(handed, afterCount)
    ensures CanCommand(s, Observe)
    ensures Commanded(s, Observe).commander
         == if Holds(goal, r) then Shown(call, goal, r) else StillAwaiting(call, goal, handed + [r], afterCount)
    ensures Commanded(s, Observe) == s.(commander := Commanded(s, Observe).commander)
  {
    hide Holds, Shown;
  }

  /** Giving up is GiveUp. */
  lemma GivingUpIsGiveUp(s: State, call: Call, goal: Goal, handed: seq<Record>, afterCount: nat)
    requires s.commander == StillAwaiting(call, goal, handed, afterCount)
    requires s.image.stamped.count <= NewestCount(handed, afterCount)
    ensures CanCommand(s, GiveUp)
    ensures Commanded(s, GiveUp) == s.(commander := GaveUp(call, goal))
  {
  }

  function GaveUp(call: Call, goal: Goal): Commander {
    if goal.ActivateClear? then Restoring(call) else Returned(call, Timeout)
  }

  /** The first k hand-overs, none of which met the goal, as a run of the machine. */
  lemma {:induction false} HandOversAreARun(trace: nat -> State, between: nat -> seq<Action>, call: Call, goal: Goal,
                                            afterCount: nat, handed: seq<Record>, looks: seq<nat>,
                                            start: nat, end: nat, k: nat)
    returns (acts: seq<Action>)
    requires Follows(trace, between) && OthersOnly(between)
    requires HandedOver(handed, looks, afterCount, WorldOf(trace), start, end) && k <= |handed|
    requires forall i :: 0 <= i < k ==> !Holds(goal, handed[i])
    ensures var last := if k == 0 then start else looks[k - 1];
      Leads(trace(start).(commander := StillAwaiting(call, goal, [], afterCount)), acts,
            trace(last).(commander := StillAwaiting(call, goal, handed[..k], afterCount)))
    decreases k
  {
    hide Leads, HandedOver, Follows, OthersOnly, StillAwaiting, Holds, Shown;
    if k == 0 {
      acts := [];
      assert handed[..0] == [];
      NoSteps(trace(start).(commander := StillAwaiting(call, goal, [], afterCount)));
    } else {
      assert |looks| == |handed| by { SameLength(handed, looks, afterCount, WorldOf(trace), start, end); }
      var before := if k == 1 then start else looks[k - 2];
      acts := HandOversAreARun(trace, between, call, goal, afterCount, handed, looks, start, end, k - 1);
      acts := OneHandOver(trace, between, call, goal, afterCount, handed, looks, start, end, k - 1, acts, before);
      FirstOnes(handed, k);
    }
  }

  lemma NoSteps(s: State)
    ensures Leads(s, [], s)
  {
  }

  lemma SameLength(handed: seq<Record>, looks: seq<nat>, afterCount: nat, world: Timeline, start: nat, end: nat)
    requires HandedOver(handed, looks, afterCount, world, start, end)
    ensures |looks| == |handed|
  {
  }

  lemma FirstOnes(handed: seq<Record>, k: nat)
    requires 0 < k <= |handed|
    ensures handed[..k] == handed[..k - 1] + [handed[k - 1]]
  {
  }

  /** The others run on to the next look, and the commander observes there. */
  lemma OneHandOver(trace: nat -> State, between: nat -> seq<Action>, call: Call, goal: Goal,
                    afterCount: nat, handed: seq<Record>, looks: seq<nat>,
                    start: nat, end: nat, k: nat, soFar: seq<Action>, before: nat)
    returns (acts: seq<Action>)
    requires Follows(trace, between) && OthersOnly(between)
    requires HandedOver(handed, looks, afterCount, WorldOf(trace), start, end) && k < |handed|
    requires before == if k == 0 then start else looks[k - 1]
    requires Leads(trace(start).(commander := StillAwaiting(call, goal, [], afterCount)), soFar,
                   trace(before).(commander := StillAwaiting(call, goal, handed[..k], afterCount)))
    ensures
      Leads(trace(start).(commander := StillAwaiting(call, goal, [], afterCount)), acts,
            trace(looks[k]).(commander :=
              if Holds(goal, handed[k]) then Shown(call, goal, handed[k])
              else StillAwaiting(call, goal, handed[..k] + [handed[k]], afterCount)))
  {
    var c := StillAwaiting(call, goal, handed[..k], afterCount);
    assert NewestCount(handed[..k], afterCount) == if k == 0 then afterCount else handed[k - 1].count;
    assert handed[k].count > NewestCount(handed[..k], afterCount) && before < looks[k];
    assert handed[k] == trace(looks[k]).image.stamped;
    hide HandedOver;
    var more := Meanwhile(trace, between, before, looks[k], c);
    hide Leads, Follows, OthersOnly;
    var first := trace(start).(commander := StillAwaiting(call, goal, [], afterCount));
    var s := trace(looks[k]).(commander := c);
    LeadsOn(first, soFar, trace(before).(commander := c), more, s);
    HandOverIsObserve(s, call, goal, handed[..k], afterCount, handed[k]);
    LeadsFurther(first, soFar + more, s, Commanding(Observe));
    acts := soFar + more + [Commanding(Observe)];
  }

  /** What the wait loop returns, run in the world of a run whose steps between the looks are the other
      threads', the machine reaches by its own steps of the commander: each hand-over is an Observe, and
      giving up a GiveUp. The requires are what WaitForExchangeAfter ensures. */
  lemma WaitIsARun(trace: nat -> State, between: nat -> seq<Action>, call: Call, goal: Goal, afterCount: nat,
                   start: nat, r: Option<Record>, handed: seq<Record>, looks: seq<nat>, look: nat)
    returns (acts: seq<Action>)
    requires Follows(trace, between) && OthersOnly(between) && start <= look
    requires HandedOver(handed, looks, afterCount, WorldOf(trace), start, look)
    requires forall i :: 0 <= i < |handed| - 1 ==> !Holds(goal, handed[i])
    requires r.Some? ==> handed != [] && r.value == handed[|handed| - 1] && Holds(goal, r.value)
    requires r.None? ==> (handed != [] ==> !Holds(goal, handed[|handed| - 1]))
    requires r.None? ==> trace(look).image.stamped.count <= NewestCount(handed, afterCount)
    ensures var end := if r.Some? then looks[|handed| - 1] else look;
      Leads(trace(start).(commander := Awaiting(call, goal, afterCount + 1)), acts,
            trace(end).(commander := if r.Some? then Shown(call, goal, r.value) else GaveUp(call, goal)))
  {
    hide Leads, Follows, OthersOnly, Holds, Shown;
    if r.Some? {
      acts := WaitThatMeets(trace, between, call, goal, afterCount, handed, looks, start, look);
    } else {
      assert forall i :: 0 <= i < |handed| ==> !Holds(goal, handed[i]);
      hide HandedOver;
      acts := WaitThatGivesUp(trace, between, call, goal, afterCount, handed, looks, start, look);
    }
  }

  lemma WaitThatMeets(trace: nat -> State, between: nat -> seq<Action>, call: Call, goal: Goal, afterCount: nat,
                      handed: seq<Record>, looks: seq<nat>, start: nat, look: nat)
    returns (acts: seq<Action>)
    requires Follows(trace, between) && OthersOnly(between) && handed != []
    requires HandedOver(handed, looks, afterCount, WorldOf(trace), start, look)
    requires forall i :: 0 <= i < |handed| - 1 ==> !Holds(goal, handed[i])
    requires Holds(goal, handed[|handed| - 1])
    ensures Leads(trace(start).(commander := Awaiting(call, goal, afterCount + 1)), acts,
                  trace(looks[|handed| - 1]).(commander := Shown(call, goal, handed[|handed| - 1])))
  {
    hide Leads, Follows, OthersOnly, Holds, Shown;
    var n := |handed|;
    acts := HandOversAreARun(trace, between, call, goal, afterCount, handed, looks, start, look, n - 1);
    var before := if n == 1 then start else looks[n - 2];
    acts := OneHandOver(trace, between, call, goal, afterCount, handed, looks, start, look, n - 1, acts, before);
  }

  lemma WaitThatGivesUp(trace: nat -> State, between: nat -> seq<Action>, call: Call, goal: Goal, afterCount: nat,
                        handed: seq<Record>, looks: seq<nat>, start: nat, look: nat)
    returns (acts: seq<Action>)
    requires Follows(trace, between) && OthersOnly(between) && start <= look
    requires HandedOver(handed, looks, afterCount, WorldOf(trace), start, look)
    requires forall i :: 0 <= i < |handed| ==> !Holds(goal, handed[i])
    requires trace(look).image.stamped.count <= NewestCount(handed, afterCount)
    ensures Leads(trace(start).(commander := Awaiting(call, goal, afterCount + 1)), acts,
                  trace(look).(commander := GaveUp(call, goal)))
  {
    hide Leads, Follows, OthersOnly, Holds, Shown, GaveUp;
    var n := |handed|;
    acts := HandOversAreARun(trace, between, call, goal, afterCount, handed, looks, start, look, n);
    assert handed[..n] == handed;
    var last := if n == 0 then start else looks[n - 1];
    assert last <= look;
    hide HandedOver, NewestCount;
    var c := StillAwaiting(call, goal, handed, afterCount);
    var more := Meanwhile(trace, between, last, look, c);
    acts := Concluded(trace(start), acts, trace(last).(commander := c), more, trace(look), call, goal,
                      handed, afterCount);
  }

  lemma Concluded(start: State, soFar: seq<Action>, middle: State, more: seq<Action>, end: State,
                  call: Call, goal: Goal, handed: seq<Record>, afterCount: nat)
    returns (acts: seq<Action>)
    requires Leads(start.(commander := StillAwaiting(call, goal, [], afterCount)), soFar, middle)
    requires Leads(middle, more, end.(commander := StillAwaiting(call, goal, handed, afterCount)))
    requires end.image.stamped.count <= NewestCount(handed, afterCount)
    ensures Leads(start.(commander := Awaiting(call, goal, afterCount + 1)), acts,
                  end.(commander := GaveUp(call, goal)))
  {
    hide Leads;
    var first := start.(commander := StillAwaiting(call, goal, [], afterCount));
    var s := end.(commander := StillAwaiting(call, goal, handed, afterCount));
    LeadsOn(first, soFar, middle, more, s);
    GivingUpIsGiveUp(s, call, goal, handed, afterCount);
    LeadsFurther(first, soFar + more, s, Commanding(GiveUp));
    acts := soFar + more + [Commanding(GiveUp)];
  }
}
