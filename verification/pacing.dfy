/** The pacing of the exchange loop: overruns, failures and late sleeps never build up a backlog
    that bursts exchanges later. */
module Pacing {
  import opened Arithmetic

  /** What the outside decides for one pass of the loop: how much later than it could the exchange
      starts (a sleep overshoots, the thread is scheduled late), and how long it takes, successful or
      not. A sleep never returns early. */
  datatype Pass = Pass(late: nat, duration: nat)

  function Later(a: int, b: int): int { if a >= b then a else b }

  /** The loop's own schedule: starts are the instants of the exchanges, next the values of nextCycle
      they were due at. */
  predicate Ran(starts: seq<int>, next: seq<int>, begin: int, period: int, passes: seq<Pass>) {
    && |starts| == |next| <= |passes|
    && (starts != [] ==> next[0] == begin)
    && (forall i :: 0 <= i < |starts| ==> starts[i] == next[i] + passes[i].late)
    && (forall i :: 0 < i < |starts| ==>
         next[i] == Later(next[i - 1] + period, starts[i - 1] + passes[i - 1].duration))
  }

  /** The body of the exchange thread. An exchange never starts before the one in front of it is over. The
      next one is due a period after that one was, or at once when it took longer. So, as long as none
      takes longer, the schedule does not drift: it is due at whole periods from any cycle on. */
  method ExchangeLoop(begin: int, period: int, passes: seq<Pass>) returns (starts: seq<int>, next: seq<int>)
    ensures |starts| == |next| == |passes| && Ran(starts, next, begin, period, passes)
    ensures forall i | 0 <= i < |passes| :: starts[i] == next[i] + passes[i].late
    ensures forall i | 0 < i < |passes| :: starts[i] >= starts[i - 1] + passes[i - 1].duration
    ensures forall i | 0 < i < |passes| ::
      next[i] == if starts[i - 1] + passes[i - 1].duration <= next[i - 1] + period then next[i - 1] + period
                 else starts[i - 1] + passes[i - 1].duration
    ensures forall i, j | 0 <= i <= j < |passes| && NoOverrun(starts, next, period, passes, i, j) ::
      next[j] == next[i] + (j - i) * period
    ensures passes != [] ==> next[0] == begin
  {
    starts, next := [], [];
    var nextCycle := begin;
    for i := 0 to |passes|
      invariant |starts| == i && Ran(starts, next, begin, period, passes)
      invariant nextCycle == if i == 0 then begin
        else Later(next[i - 1] + period, starts[i - 1] + passes[i - 1].duration)
    {
      var now := nextCycle + passes[i].late; // sleepUntil(nextCycle) has returned
      starts, next := starts + [now], next + [nextCycle];
      now := now + passes[i].duration;       // exchangeOnce()
      nextCycle := Later(nextCycle + period, now);
    }
    Due(starts, next, begin, period, passes);
    hide *;
    NoDrift(starts, next, begin, period, passes);
  }

  /** None of the exchanges from i on, up to j, is still running a period after it was due. */
  ghost predicate NoOverrun(starts: seq<int>, next: seq<int>, period: int, passes: seq<Pass>, i: nat, j: nat)
    requires i <= j <= |starts| == |next| <= |passes|
  {
    forall k | i <= k < j :: starts[k] + passes[k].duration <= next[k] + period
  }

  lemma Due(starts: seq<int>, next: seq<int>, begin: int, period: int, passes: seq<Pass>)
    requires Ran(starts, next, begin, period, passes)
    ensures forall i | 0 <= i < |starts| :: starts[i] == next[i] + passes[i].late
    ensures forall i | 0 < i < |starts| :: starts[i] >= starts[i - 1] + passes[i - 1].duration
    ensures forall i | 0 < i < |starts| ::
      next[i] == if starts[i - 1] + passes[i - 1].duration <= next[i - 1] + period then next[i - 1] + period
                 else starts[i - 1] + passes[i - 1].duration
  {
  }

  /** Without an overrun from one cycle to another, they are due whole periods apart. */
  lemma NoDrift(starts: seq<int>, next: seq<int>, begin: int, period: int, passes: seq<Pass>)
    requires Ran(starts, next, begin, period, passes)
    ensures forall i, j | 0 <= i <= j < |starts| && NoOverrun(starts, next, period, passes, i, j) ::
      next[j] == next[i] + (j - i) * period
  {
    forall i, j | 0 <= i <= j < |starts| && NoOverrun(starts, next, period, passes, i, j)
      ensures next[j] == next[i] + (j - i) * period
    {
      StaysOnBeat(starts, next, begin, period, passes, i, j);
    }
  }

  lemma {:induction false} StaysOnBeat(starts: seq<int>, next: seq<int>, begin: int, period: int, passes: seq<Pass>,
                                       i: nat, j: nat)
    requires Ran(starts, next, begin, period, passes) && i <= j < |starts|
    requires NoOverrun(starts, next, period, passes, i, j)
    ensures next[j] == next[i] + (j - i) * period
  {
    if i < j {
      StaysOnBeat(starts, next, begin, period, passes, i, j - 1);
      assert next[j] == next[j - 1] + period;
      assert (j - i) * period == (j - 1 - i) * period + period;
    }
  }

  /** What the bound needs of a schedule. */
  ghost predicate Paced(starts: seq<int>, next: seq<int>, period: int) {
    && |next| == |starts|
    && (forall i :: 0 <= i < |starts| ==> starts[i] >= next[i])
    && (forall i :: 0 < i < |starts| ==> next[i] >= next[i - 1] + period && next[i] >= starts[i - 1])
  }

  lemma RunsArePaced(starts: seq<int>, next: seq<int>, begin: int, period: int, passes: seq<Pass>)
    requires Ran(starts, next, begin, period, passes)
    ensures Paced(starts, next, period)
  {
  }

  /** How many exchanges start in the window from t to t + width, both ends included. */
  function StartsIn(starts: seq<int>, t: int, width: nat): nat {
    if starts == [] then 0
    else StartsIn(starts[..|starts| - 1], t, width) + (if t <= starts[|starts| - 1] <= t + width then 1 else 0)
  }

  /** count periods, added up one by one. */
  function Periods(count: nat, period: int): int {
    if count == 0 then 0 else Periods(count - 1, period) + period
  }

  lemma {:induction false} PeriodsDivide(count: nat, period: nat, width: nat)
    requires period > 0 && Periods(count, period) <= width
    ensures count <= width / period
    decreases count
  {
    if count > 0 {
      assert width >= period by { PeriodsNonNegative(count - 1, period); }
      PeriodsDivide(count - 1, period, width - period);
      DivideStep(width, period);
    }
  }

  lemma {:induction false} PeriodsNonNegative(count: nat, period: nat)
    ensures Periods(count, period) >= 0
  {
    if count > 0 {
      PeriodsNonNegative(count - 1, period);
    }
  }

  lemma DivideStep(width: nat, period: nat)
    requires 0 < period <= width
    ensures width / period == (width - period) / period + 1
  {
    var q, r := (width - period) / period, (width - period) % period;
    assert width - period == q * period + r;
    assert (q + 1) * period == q * period + period;
    QuotientIs(width, period, q + 1, r);
  }

  lemma {:induction false} NextGrows(starts: seq<int>, next: seq<int>, period: int, i: nat, gap: nat)
    requires Paced(starts, next, period) && i + gap < |starts|
    ensures next[i + gap] >= next[i] + Periods(gap, period)
  {
    if gap > 0 {
      NextGrows(starts, next, period, i, gap - 1);
    }
  }

  /** A window that holds some starts has a first and a last one, the others in between. */
  lemma {:induction false} WindowEnds(starts: seq<int>, next: seq<int>, period: nat, t: int, width: nat)
    returns (first: nat, last: nat)
    requires Paced(starts, next, period) && StartsIn(starts, t, width) > 0
    ensures first <= last < |starts| && t <= starts[first] && starts[last] <= t + width
    ensures first + StartsIn(starts, t, width) - 1 <= last
  {
    var n := |starts| - 1;
    var earlier := starts[..n];
    if StartsIn(earlier, t, width) == 0 {
      first, last := n, n;
    } else {
      first, last := WindowEnds(earlier, next[..n], period, t, width);
      if t <= starts[n] <= t + width {
        last := n;
      }
    }
  }

  /** No burst after overruns: a window of any width starts at most floor(width / period) + 2
      exchanges, whatever the cycles took, failed or overslept. */
  lemma NoBurst(starts: seq<int>, next: seq<int>, begin: int, period: nat, passes: seq<Pass>, t: int, width: nat)
    requires period > 0 && Ran(starts, next, begin, period, passes)
    ensures StartsIn(starts, t, width) <= width / period + 2
  {
    RunsArePaced(starts, next, begin, period, passes);
    var gap := WindowHolds(starts, next, period, t, width);
    hide Paced, Ran, StartsIn;
    PeriodsDivide(gap, period, width);
  }

  /** The starts in a window, but for two, are whole periods that fit into it. */
  lemma WindowHolds(starts: seq<int>, next: seq<int>, period: nat, t: int, width: nat) returns (gap: nat)
    requires Paced(starts, next, period)
    ensures Periods(gap, period) <= width && StartsIn(starts, t, width) <= gap + 2
  {
    var count := StartsIn(starts, t, width);
    gap := 0;
    if count > 2 {
      var first, last := WindowEnds(starts, next, period, t, width);
      gap := last - first - 1;
      PeriodsFit(starts, next, period, first, gap, t, width);
    }
  }

  /** All but the first of the starts between two in the window are a period apart. */
  lemma PeriodsFit(starts: seq<int>, next: seq<int>, period: nat, first: nat, gap: nat, t: int, width: nat)
    requires Paced(starts, next, period) && first + 1 + gap < |starts|
    requires t <= starts[first] && starts[first + 1 + gap] <= t + width
    ensures Periods(gap, period) <= width
  {
    NextGrows(starts, next, period, first + 1, gap);
    assert starts[first + 1 + gap] >= next[first + 1 + gap] && next[first + 1] >= starts[first];
  }

  // ------------------------------------------------------------- the bound is tight

  /** A start that is a period late, a punctual one at the same instant, then one start a period. */
  function TightStarts(period: nat, count: nat): seq<int> {
    seq(count, i requires 0 <= i < count => if i == 0 then period else Periods(i, period))
  }

  function TightNext(period: nat, count: nat): seq<int> {
    seq(count, i requires 0 <= i < count => Periods(i, period))
  }

  function TightPasses(period: nat, count: nat): seq<Pass> {
    seq(count, i requires 0 <= i < count => Pass(if i == 0 then period else 0, 0))
  }

  lemma TightRan(period: nat, count: nat)
    ensures Ran(TightStarts(period, count), TightNext(period, count), 0, period, TightPasses(period, count))
  {
    var starts, next, passes := TightStarts(period, count), TightNext(period, count), TightPasses(period, count);
    forall i | 0 < i < count
      ensures next[i] == Later(next[i - 1] + period, starts[i - 1] + passes[i - 1].duration)
    {
      assert Periods(i, period) == Periods(i - 1, period) + period;
    }
  }

  /** Every start of a schedule that lies in the window counts. */
  lemma {:induction false} AllInWindow(starts: seq<int>, t: int, width: nat)
    requires forall i | 0 <= i < |starts| :: t <= starts[i] <= t + width
    ensures StartsIn(starts, t, width) == |starts|
  {
    if starts != [] {
      AllInWindow(starts[..|starts| - 1], t, width);
    }
  }

  lemma {:induction false} PeriodsGrow(i: nat, j: nat, period: nat)
    requires i <= j
    ensures Periods(i, period) <= Periods(j, period)
  {
    if i < j {
      PeriodsGrow(i, j - 1, period);
    }
  }

  /** As many whole periods as the quotient says fit. */
  lemma {:induction false} QuotientFits(width: nat, period: nat)
    requires period > 0
    ensures Periods(width / period, period) <= width
    decreases width
  {
    if width >= period {
      QuotientFits(width - period, period);
      DivideStep(width, period);
    }
  }

  /** The bound is reached, for every period and every width. */
  lemma BoundIsTight(period: nat, width: nat) returns (starts: seq<int>, next: seq<int>, passes: seq<Pass>)
    requires period > 0
    ensures Ran(starts, next, 0, period, passes)
    ensures StartsIn(starts, period, width) == width / period + 2
  {
    var count := width / period + 2;
    starts, next, passes := TightStarts(period, count), TightNext(period, count), TightPasses(period, count);
    TightRan(period, count);
    QuotientFits(width, period);
    forall i | 0 <= i < count ensures period <= starts[i] <= period + width {
      if i > 0 {
        PeriodsGrow(1, i, period);
        PeriodsGrow(i, count - 1, period);
        assert Periods(1, period) == Periods(0, period) + period;
        assert Periods(count - 1, period) == Periods(count - 2, period) + period;
      }
    }
    AllInWindow(starts, period, width);
  }
}
