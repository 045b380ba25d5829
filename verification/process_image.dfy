/** The process image: the command block for the next exchange and the record of the last one
    behind one lock, and the waits built on it. */
module ProcessImage {
  import opened Blocks
  import opened Wrappers

  /** A stamped exchange: its count and instant, the block it wrote, the status it read back. */
  datatype Record = Record(count: nat, at: int, command: Command, status: Status)

  datatype Image = Image(command: Command, stamped: Record, closed: bool)

  function Seeded(image: Image, status: Status, at: int, command: Command): Image {
    Image(command, Record(0, at, command, status), image.closed)
  }

  function Published(image: Image, command: Command, status: Status, at: int): Image {
    image.(stamped := Record(image.stamped.count + 1, at, command, status))
  }

  // ------------------------------------------------------------------ time

  const NS_PER_MS := 1_000_000
  const CLOCK_MAX := 0x7FFF_FFFF_FFFF_FFFF

  /** Half the clock's range, in milliseconds: the longest timeout honoured. */
  const LONGEST_MS := CLOCK_MAX / NS_PER_MS / 2

  function DeadlineAfter(now: int, timeoutMs: int): int {
    now + (if timeoutMs < LONGEST_MS then timeoutMs else LONGEST_MS) * NS_PER_MS
  }

  /** Whole milliseconds left, rounded up; none once the deadline is reached. */
  function RemainingMs(now: int, deadline: int): (ms: nat)
    ensures deadline > now ==> deadline <= now + ms * NS_PER_MS < deadline + NS_PER_MS
    ensures deadline <= now ==> ms == 0
  {
    if deadline > now then (deadline - now + NS_PER_MS - 1) / NS_PER_MS else 0
  }

  /** Capping keeps the sum on the clock for every non-negative timeout, for 146 years of uptime, and the
      deadline is the timeout's own, to the nanosecond, up to those 146 years. */
  lemma DeadlineNeverOverflows(now: int, timeoutMs: nat)
    requires 0 <= now <= CLOCK_MAX / 2
    ensures now <= DeadlineAfter(now, timeoutMs) <= CLOCK_MAX
    ensures timeoutMs <= 4_611_686_018_427 <==> DeadlineAfter(now, timeoutMs) == now + timeoutMs * 1_000_000
    ensures DeadlineAfter(now, timeoutMs) <= now + timeoutMs * 1_000_000
  {
    assert LONGEST_MS * NS_PER_MS <= CLOCK_MAX / 2;
  }

  // --------------------------------------------------------------- a thread's view

  /** What a waiting thread sees at its i-th look: every time it reads the clock or takes the lock.
      Other threads run between two looks. */
  datatype Moment = Moment(image: Image, now: int)

  type Timeline = nat -> Moment

  /** Counts only grow, equal counts name the same record, closing is final, the clock is monotone. */
  ghost predicate Lawful(world: Timeline) {
    forall i: nat, j: nat {:trigger world(i), world(j)} :: i <= j ==>
      && world(i).now <= world(j).now
      && world(i).image.stamped.count <= world(j).image.stamped.count
      && (world(i).image.stamped.count == world(j).image.stamped.count ==>
            world(i).image.stamped == world(j).image.stamped)
      && (world(i).image.closed ==> world(j).image.closed)
  }

  /** The clock passes every instant: reach(t) bounds the look at which t is past. */
  ghost predicate ClockAdvances(world: Timeline, reach: int -> nat) {
    forall t {:trigger reach(t)} :: world(reach(t)).now >= t
  }

  /** The count of the last record handed over, or the count the wait started from. */
  function NewestCount(handed: seq<Record>, afterCount: nat): nat {
    if handed == [] then afterCount else handed[|handed| - 1].count
  }

  /** Records handed over at the given looks: each the newest at its moment, all past the count the
      wait started from, counts and moments strictly increasing. */
  ghost predicate HandedOver(handed: seq<Record>, looks: seq<nat>, afterCount: nat,
                             world: Timeline, start: nat, end: nat)
  {
    && |looks| == |handed|
    && (forall i :: 0 <= i < |handed| ==>
         start < looks[i] <= end && handed[i] == world(looks[i]).image.stamped && handed[i].count > afterCount)
    && (forall i, j :: 0 <= i < j < |handed| ==> looks[i] < looks[j] && handed[i].count < handed[j].count)
  }

  /** A count that is skipped was published after one hand-over and replaced before the next: two
      publishes at least fell in between. Before the first hand-over, after the count waited from. */
  lemma SkippedWereReplaced(handed: seq<Record>, looks: seq<nat>, afterCount: nat,
                            world: Timeline, start: nat, end: nat, i: nat, count: nat)
    requires Lawful(world) && HandedOver(handed, looks, afterCount, world, start, end) && i < |handed|
    requires (if i == 0 then afterCount else handed[i - 1].count) < count < handed[i].count
    ensures forall l :: l >= looks[i] ==> world(l).image.stamped.count > count
    ensures i > 0 ==>
      && (forall l :: l <= looks[i - 1] ==> world(l).image.stamped.count < count)
      && world(looks[i - 1]).image.stamped.count + 2 <= world(looks[i]).image.stamped.count
  {
    forall l: nat | l >= looks[i] ensures world(l).image.stamped.count > count {
      assert world(looks[i]).image.stamped.count <= world(l).image.stamped.count;
    }
    if i > 0 {
      forall l: nat | l <= looks[i - 1] ensures world(l).image.stamped.count < count {
        assert world(l).image.stamped.count <= world(looks[i - 1]).image.stamped.count;
      }
    }
  }

  lemma NoneHanded(afterCount: nat, world: Timeline, start: nat)
    ensures HandedOver([], [], afterCount, world, start, start)
  {
  }

  lemma NoneSince(handed: seq<Record>, looks: seq<nat>, afterCount: nat,
                  world: Timeline, start: nat, end: nat, later: nat)
    requires HandedOver(handed, looks, afterCount, world, start, end) && end <= later
    ensures HandedOver(handed, looks, afterCount, world, start, later)
  {
  }

  lemma HandOneMore(handed: seq<Record>, looks: seq<nat>, afterCount: nat,
                    world: Timeline, start: nat, end: nat, look: nat)
    requires HandedOver(handed, looks, afterCount, world, start, end) && start <= end < look
    requires world(look).image.stamped.count > NewestCount(handed, afterCount)
    ensures HandedOver(handed + [world(look).image.stamped], looks + [look], afterCount, world, start, look)
  {
  }

  // ------------------------------------------------------------- a wait ends on time

  /** A pass of the wait from one look to another reads the clock twice. It takes no look in between, after
      those, later than a millisecond past the deadline and what went by between the two readings. */
  ghost predicate OnTime(world: Timeline, start: nat, end: nat, deadline: int) {
    forall i :: start + 2 < i < end ==>
      world(i).now < deadline + 1_000_000 + (world(start + 2).now - world(start + 1).now)
  }

  function LastLook(looks: seq<nat>, start: nat): nat {
    if looks == [] then start else looks[|looks| - 1]
  }

  /** So does each pass: one ends at every hand-over, and one more at the end. */
  ghost predicate PassesOnTime(looks: seq<nat>, world: Timeline, start: nat, end: nat, deadline: int) {
    && (forall k :: 0 <= k < |looks| ==> OnTime(world, LastLook(looks[..k], start), looks[k], deadline))
    && OnTime(world, LastLook(looks, start), end, deadline)
  }

  lemma OnTimeStill(world: Timeline, start: nat, end: nat, deadline: int, later: int)
    requires OnTime(world, start, end, deadline) && deadline <= later
    ensures OnTime(world, start, end, later)
  {
  }

  lemma OnePassMore(looks: seq<nat>, world: Timeline, start: nat, look: nat, deadline: int)
    requires PassesOnTime(looks, world, start, LastLook(looks, start), deadline)
    requires OnTime(world, LastLook(looks, start), look, deadline)
    ensures PassesOnTime(looks + [look], world, start, look, deadline) && LastLook(looks + [look], start) == look
  {
    hide OnTime;
    var more := looks + [look];
    assert more[..|looks|] == looks;
    forall k | 0 <= k < |looks| ensures OnTime(world, LastLook(more[..k], start), more[k], deadline) {
      assert more[..k] == looks[..k];
    }
    assert LastLook(more, start) == look;
    NoPass(world, look, deadline);
  }

  lemma LastPass(looks: seq<nat>, world: Timeline, start: nat, look: nat, deadline: int)
    requires PassesOnTime(looks, world, start, LastLook(looks, start), deadline)
    requires OnTime(world, LastLook(looks, start), look, deadline)
    ensures PassesOnTime(looks, world, start, look, deadline)
  {
  }

  lemma NoPass(world: Timeline, look: nat, deadline: int)
    ensures OnTime(world, look, look, deadline)
    ensures PassesOnTime([], world, look, look, deadline) && LastLook([], look) == look
  {
  }

  // ----------------------------------------------------------------- the image

  class LockedImage {
    var command: Command
    var stamped: Record
    var closed: bool

    ghost function View(): Image
      reads this
    {
      Image(command, stamped, closed)
    }

    constructor (command: Command, stamped: Record)
      ensures View() == Image(command, stamped, false)
    {
      this.command, this.stamped, this.closed := command, stamped, false;
    }

    method Seed(status: Status, at: int, command: Command)
      modifies this
      ensures View() == Seeded(old(View()), status, at, command)
    {
      stamped := stamped.(count := 0);
      stamped := stamped.(at := at);
      stamped := stamped.(command := command);
      stamped := stamped.(status := status);
      this.command := command;
    }

    method SetCommand(command: Command)
      modifies this
      ensures View() == old(View()).(command := command)
    {
      this.command := command;
    }

    method Command() returns (command: Command)
      ensures command == View().command
    {
      command := this.command;
    }

    /** The locked half of publish: no reader sees one half of a record. */
    method Publish(command: Command, status: Status, completedAt: int)
      modifies this
      ensures View() == Published(old(View()), command, status, completedAt)
    {
      stamped := stamped.(count := stamped.count + 1);
      stamped := stamped.(at := completedAt);
      stamped := stamped.(command := command);
      stamped := stamped.(status := status);
    }

    method Close()
      modifies this
      ensures View() == old(View()).(closed := true)
    {
      closed := true;
    }

    /** The other threads run while this one does not hold the lock. */
    method Interfere(image: Image)
      modifies this
      ensures View() == image
    {
      command, stamped, closed := image.command, image.stamped, image.closed;
    }

    /** Blocks until the count is past the one given, the image is closed or the deadline passes,
        and returns at the first look that allows it: no look it took before did. */
    method Sync(count: nat, deadline: int, world: Timeline, start: nat, ghost reach: int -> nat)
      returns (r: Record, look: nat)
      requires Lawful(world) && ClockAdvances(world, reach)
      modifies this
      ensures start <= look && View() == world(look).image && r == world(look).image.stamped
      ensures r.count > count || world(look).image.closed || world(look).now >= deadline
      ensures forall i :: start <= i < look ==>
        world(i).image.stamped.count <= count && !world(i).image.closed && world(i).now < deadline
    {
      look := start;
      Interfere(world(look).image);
      ghost var late := reach(deadline);
      while stamped.count <= count && !closed && world(look).now < deadline
        invariant start <= look && View() == world(look).image
        invariant forall i :: start <= i < look ==>
          world(i).image.stamped.count <= count && !world(i).image.closed && world(i).now < deadline
        decreases late - look
      {
        assert look < late by {
          assert world(late).now >= deadline;
        }
        look := look + 1; // waitUntil: unlock, block, relock
        Interfere(world(look).image);
      }
      r := stamped;
    }

    /** Empty when the wanted count was not reached; the newest record otherwise. It blocks for the
        timeout, capped at half the clock's range, and never past it. */
    method WaitForExchangeCount(desired: nat, timeoutMs: int, world: Timeline, start: nat, ghost reach: int -> nat)
      returns (r: Option<Record>, look: nat)
      requires Lawful(world) && ClockAdvances(world, reach)
      modifies this
      ensures start < look
      ensures var newest := world(look).image.stamped;
        r == if newest.count < desired then None else Some(newest)
      ensures r.None? ==> world(look).image.closed || world(look).now >= DeadlineAfter(world(start).now, timeoutMs)
      ensures r.None? && timeoutMs <= 4_611_686_018_427 ==>
        world(look).image.closed || world(look).now >= world(start).now + timeoutMs * 1_000_000
      ensures forall i :: start < i < look ==>
        && world(i).image.stamped.count < desired && !world(i).image.closed
        && world(i).now < world(start).now + timeoutMs * 1_000_000
    {
      var deadline := DeadlineAfter(world(start).now, timeoutMs);
      var newest: Record;
      if desired == 0 {
        look := start + 1;
        Interfere(world(look).image);
        newest := stamped;
      } else {
        newest, look := Sync(desired - 1, deadline, world, start + 1, reach);
      }
      r := if newest.count < desired then None else Some(newest);
    }

    /** One pass: what is left of the timeout, rounded up, goes to the inner wait. It never gives up
        before the outer deadline, and blocks past it by no more than the rounding and what went by
        between its two readings of the clock. */
    method NextExchange(desired: nat, deadline: int, world: Timeline, start: nat, ghost reach: int -> nat)
      returns (r: Option<Record>, look: nat)
      requires Lawful(world) && ClockAdvances(world, reach)
      requires deadline <= world(start).now + LONGEST_MS * NS_PER_MS
      modifies this
      ensures start < look && deadline <= world(look).now + LONGEST_MS * NS_PER_MS
      ensures var newest := world(look).image.stamped;
        r == if newest.count < desired then None else Some(newest)
      ensures r.None? ==> world(look).image.closed || world(look).now >= deadline
      ensures OnTime(world, start, look, deadline)
    {
      var now := world(start + 1).now;
      assert world(start).now <= now;
      r, look := WaitForExchangeCount(desired, RemainingMs(now, deadline), world, start + 2, reach);
      assert now <= world(start + 2).now <= world(look).now;
      WaitsLongEnough(now, world(start + 2).now, deadline);
    }

    /** The loop every wait is built on. handed lists the records given to the predicate, looks the
        moments they were taken at; SkippedWereReplaced says what becomes of counts in between. It
        terminates on every timeline with finitely many publishes, however late the clock is. */
    method WaitForExchangeAfter(afterCount: nat, wanted: Record -> bool, timeoutMs: int,
                                world: Timeline, start: nat, ghost reach: int -> nat, ghost lastCount: nat)
      returns (r: Option<Record>, handed: seq<Record>, looks: seq<nat>, look: nat)
      requires Lawful(world) && ClockAdvances(world, reach)
      requires forall i :: world(i).image.stamped.count <= lastCount
      modifies this
      ensures HandedOver(handed, looks, afterCount, world, start, look)
      ensures forall i :: 0 <= i < |handed| - 1 ==> !wanted(handed[i])
      ensures r.Some? ==> handed != [] && r.value == handed[|handed| - 1] && wanted(r.value)
      ensures r.None? ==> (handed != [] ==> !wanted(handed[|handed| - 1]))
      ensures r.None? ==>
        && (world(look).image.closed || world(look).now >= DeadlineAfter(world(start).now, timeoutMs))
        && world(look).image.stamped.count <= NewestCount(handed, afterCount)
      ensures r.None? && timeoutMs <= 4_611_686_018_427 ==>
        world(look).image.closed || world(look).now >= world(start).now + timeoutMs * 1_000_000
      ensures PassesOnTime(looks, world, start, look, world(start).now + timeoutMs * 1_000_000)
    {
      hide RemainingMs, Lawful, ClockAdvances, HandedOver, OnTime, PassesOnTime, LastLook;
      NoPass(world, start, world(start).now + timeoutMs * 1_000_000);
      var deadline := DeadlineAfter(world(start).now, timeoutMs);
      var desired := afterCount + 1;
      r, handed, looks, look := None, [], [], start;
      NoneHanded(afterCount, world, start);
      ghost var limit := world(start).now + timeoutMs * 1_000_000;
      while true
        invariant start <= look && deadline <= world(look).now + LONGEST_MS * NS_PER_MS
        invariant HandedOver(handed, looks, afterCount, world, start, look)
        invariant PassesOnTime(looks, world, start, look, limit) && LastLook(looks, start) == look
        invariant desired == NewestCount(handed, afterCount) + 1
        invariant handed == [] || desired <= lastCount + 1
        invariant forall i :: 0 <= i < |handed| ==> !wanted(handed[i])
        decreases lastCount + 1 - desired
      {
        ghost var end := look;
        r, look := NextExchange(desired, deadline, world, look, reach);
        OnTimeStill(world, end, look, deadline, limit);
        if r.None? {
          NoneSince(handed, looks, afterCount, world, start, end, look);
          LastPass(looks, world, start, look, limit);
          return;
        }
        HandOneMore(handed, looks, afterCount, world, start, end, look);
        OnePassMore(looks, world, start, look, limit);
        handed, looks := handed + [r.value], looks + [look];
        if wanted(r.value) {
          return;
        }
        desired := r.value.count + 1;
      }
    }
  }

  /** Splitting a timeout over several inner waits never gives up before the outer deadline. */
  lemma WaitsLongEnough(now: int, later: int, deadline: int)
    requires now <= later && deadline <= now + LONGEST_MS * NS_PER_MS
    ensures DeadlineAfter(later, RemainingMs(now, deadline)) >= deadline
  {
    assert RemainingMs(now, deadline) <= LONGEST_MS;
  }
}
