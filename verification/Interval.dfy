/** A stream of ticks at a period, which its handle may put off but never bring forward.
    Instants are nanoseconds on one clock; the handle speaks in whole Unix seconds. */
module Interval {
  import opened Basics

  const NANOS_PER_SEC := 1_000_000_000

  // ---- The timer as a value ----------------------------------------------------------

  datatype Timer = Timer(deadline: nat, nextTick: nat)

  function Max(a: nat, b: nat): nat {
    if a < b then b else a
  }

  /** The deadline once a poll has taken the delay that the handle asks for, if any. */
  function PutOff(tm: Timer): nat {
    if tm.nextTick != 0 && tm.deadline < tm.nextTick * NANOS_PER_SEC then tm.nextTick * NANOS_PER_SEC
    else tm.deadline
  }

  datatype Event = Delay(after: nat) | Poll(now: nat)

  predicate Ticks(tm: Timer, e: Event) {
    e.Poll? && PutOff(tm) <= e.now
  }

  function Step(tm: Timer, e: Event, period: nat): Timer {
    match e
    case Delay(after) => tm.(nextTick := Max(tm.nextTick, after))
    case Poll(now) =>
      if Ticks(tm, e) then Timer(Max(PutOff(tm) + period, now), 0) else Timer(PutOff(tm), 0)
  }

  function Run(tm: Timer, es: seq<Event>, period: nat): Timer {
    if es == [] then tm else Step(Run(tm, es[..|es| - 1], period), es[|es| - 1], period)
  }

  /** The times at which a run ticks. */
  function TickTimes(tm: Timer, es: seq<Event>, period: nat): seq<nat> {
    if es == [] then []
    else
      var init, e := es[..|es| - 1], es[|es| - 1];
      TickTimes(tm, init, period) + if Ticks(Run(tm, init, period), e) then [e.now] else []
  }

  // ---- Rate --------------------------------------------------------------------------

  lemma Distributes(n: nat, period: nat)
    ensures (n + 1) * period == n * period + period
  {
  }

  lemma StepPutsOff(tm: Timer, e: Event, period: nat)
    ensures
      var d := Step(tm, e, period).deadline;
      && tm.deadline <= d
      && (Ticks(tm, e) ==> tm.deadline + period <= d && e.now <= d)
  {
  }

  lemma {:induction false} DeadlineKeepsRate(tm: Timer, es: seq<Event>, period: nat, k: nat)
    requires k < |TickTimes(tm, es, period)|
    ensures
      var t := TickTimes(tm, es, period);
      Run(tm, es, period).deadline >= t[k] + (|t| - 1 - k) * period
    decreases |es|
  {
    var init, e := es[..|es| - 1], es[|es| - 1];
    var n := |TickTimes(tm, init, period)|;
    StepPutsOff(Run(tm, init, period), e, period);
    if k < n {
      DeadlineKeepsRate(tm, init, period, k);
      Distributes(n - 1 - k, period);
      assert TickTimes(tm, es, period)[k] == TickTimes(tm, init, period)[k];
    }
  }

  /** However late the polls come and whatever delays are asked for, `j + 1` ticks after the
      `k`-th at least `j` periods have passed. */
  lemma {:induction false} RateBound(tm: Timer, es: seq<Event>, period: nat, k: nat, j: nat)
    requires k + 1 + j < |TickTimes(tm, es, period)|
    ensures
      var t := TickTimes(tm, es, period);
      t[k + 1 + j] >= t[k] + j * period
    decreases |es|
  {
    var init := es[..|es| - 1];
    var t0 := TickTimes(tm, init, period);
    if k + 1 + j < |t0| {
      RateBound(tm, init, period, k, j);
    } else {
      DeadlineKeepsRate(tm, init, period, k);
    }
  }

  /** At most `span / period + 2` ticks fall in any window of length `span`. */
  lemma WindowBound(tm: Timer, es: seq<Event>, period: nat, from: nat, n: nat, span: nat)
    requires period > 0 && n > 0 && from + n <= |TickTimes(tm, es, period)|
    requires var t := TickTimes(tm, es, period); t[from + n - 1] <= t[from] + span
    ensures n <= span / period + 2
  {
    if n >= 2 {
      RateBound(tm, es, period, from, n - 2);
      QuotientBound(n - 2, period, span);
    }
  }

  lemma QuotientBound(n: nat, period: nat, span: nat)
    requires period > 0 && n * period <= span
    ensures n <= span / period
  {
    var q := span / period;
    assert span < q * period + period;
    Distributes(q, period);
    assert n >= q + 1 ==> n * period >= (q + 1) * period;
  }

  // ---- Delays ------------------------------------------------------------------------

  ghost predicate NotBefore(tm: Timer, after: nat) {
    after * NANOS_PER_SEC <= tm.deadline || after <= tm.nextTick
  }

  /** After `delay(after)` nothing ticks before `after`, for ever. */
  lemma {:induction false} DelayIsHonoured(tm: Timer, after: nat, es: seq<Event>, period: nat)
    ensures
      var tm' := Step(tm, Delay(after), period);
      && NotBefore(Run(tm', es, period), after)
      && forall t :: t in TickTimes(tm', es, period) ==> after * NANOS_PER_SEC <= t
  {
    if es != [] {
      DelayIsHonoured(tm, after, es[..|es| - 1], period);
    }
  }

  // ---- Ticks do come -----------------------------------------------------------------

  /** A poll ticks if and only if it comes at or after the deadline and the delay asked for;
      the deadline after a tick is a period later, or the time of a tick that was later still. */
  lemma TicksIff(tm: Timer, now: nat, period: nat)
    ensures Ticks(tm, Poll(now)) <==> tm.deadline <= now && tm.nextTick * NANOS_PER_SEC <= now
    ensures Ticks(tm, Poll(now)) && tm.nextTick * NANOS_PER_SEC <= tm.deadline ==>
      Step(tm, Poll(now), period) == Timer(if tm.deadline + period < now then now else tm.deadline + period, 0)
  {
  }

  /** No tick comes more than a period late, and nothing is delayed. */
  ghost predicate Timely(tm: Timer, es: seq<Event>, period: nat) {
    es != [] ==>
      var init, e := es[..|es| - 1], es[|es| - 1];
      && Timely(tm, init, period) && e.Poll?
      && (Ticks(Run(tm, init, period), e) ==> e.now <= Run(tm, init, period).deadline + period)
  }

  /** Polls that are a little late make no difference in the long run: after `n` ticks the
      deadline is exactly `n` periods on. */
  lemma {:induction false} DeadlineDoesNotDrift(tm: Timer, es: seq<Event>, period: nat)
    requires tm.nextTick == 0 && Timely(tm, es, period)
    ensures Run(tm, es, period) == Timer(tm.deadline + |TickTimes(tm, es, period)| * period, 0)
  {
    if es != [] {
      var init := es[..|es| - 1];
      DeadlineDoesNotDrift(tm, init, period);
      Distributes(|TickTimes(tm, init, period)|, period);
    }
  }

  // ---- The objects -------------------------------------------------------------------

  class Handle {
    const period: nat
    var nextTick: nat

    constructor (period: nat)
      ensures this.period == period && nextTick == 0
    {
      this.period, nextTick := period, 0;
    }

    method Delay(after: nat)
      modifies this
      ensures nextTick == Max(old(nextTick), after)
    {
      if nextTick < after {
        nextTick := after;
      }
    }

    /** Takes the requested tick, leaving none. */
    method DecodeNextTick() returns (r: Option<nat>)
      modifies this
      ensures nextTick == 0
      ensures r == if old(nextTick) != 0 then Some(old(nextTick) * 1_000_000_000) else None
    {
      var tick := nextTick;
      nextTick := 0;
      r := if tick != 0 then Some(tick * NANOS_PER_SEC) else None;
    }
  }

  datatype Item = Pending | Tick | Ended

  class Interval {
    const handle: Handle
    var deadline: nat

    function View(): Timer
      reads this, handle
    {
      Timer(deadline, handle.nextTick)
    }

    constructor At(at: nat, handle: Handle)
      ensures this.handle == handle && deadline == at
    {
      this.handle, deadline := handle, at;
    }

    /** `alive`: the handle has not been dropped. */
    method PollNext(now: nat, alive: bool) returns (item: Item)
      modifies this, handle
      ensures item == if !alive then Ended else if Ticks(old(View()), Poll(now)) then Tick else Pending
      ensures item == Tick <==> alive && old(deadline) <= now && old(handle.nextTick) * NANOS_PER_SEC <= now
      ensures item == Ended <==> !alive
      ensures View() == if alive then Step(old(View()), Poll(now), handle.period) else old(View())
    {
      if !alive {
        return Ended;
      }
      var next := handle.DecodeNextTick();
      if next.Some? && deadline < next.value {
        deadline := next.value;
      }
      if now < deadline {
        return Pending;
      }
      deadline := Max(deadline + handle.period, now);
      return Tick;
    }
  }
}
