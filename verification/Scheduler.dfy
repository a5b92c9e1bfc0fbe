/** The renewal timer: a `Handle` shared with the service, which may only bring the next
    tick forward, and a `Scheduler` task that sleeps until it and then asks a callback for
    the tick after. Instants are whole Unix seconds: every deadline is one, so a deadline
    has passed exactly when it is at most the whole seconds of the clock. */
module RenewalTimer {
  import opened Basics

  /** The value of `next_tick` that stands for "no tick". */
  const NEVER: nat := U64_MAX

  // ---- The timer as a value ----------------------------------------------------------

  /** `woken`: the scheduler has been woken, or spawned, and not been polled since. */
  datatype Timer = Timer(nextTick: nat, delay: Option<nat>, woken: bool)

  function Encode(tick: Option<nat>): nat {
    if tick.Some? then tick.value else NEVER
  }

  function Decode(tick: nat): Option<nat> {
    if tick != NEVER then Some(tick) else None
  }

  function Spawned(first: Option<nat>): Timer {
    Timer(Encode(first), Decode(Encode(first)), true)
  }

  function Hastened(tm: Timer, tick: nat): Timer {
    if tick < tm.nextTick then tm.(nextTick := tick, woken := true) else tm
  }

  /** The deadline once `poll` has compared it with the handle. */
  function Rearmed(tm: Timer): Option<nat> {
    match (tm.delay, Decode(tm.nextTick))
    case (Some(d), Some(n)) => Some(if n < d then n else d)
    case (Some(d), None) => Some(d)
    case (None, n) => n
  }

  predicate Fires(tm: Timer, now: nat) {
    Rearmed(tm).Some? && Rearmed(tm).value <= now
  }

  /** One `poll` at `now`; `tick` is what the callback answers if it runs. */
  function Polled(tm: Timer, now: nat, tick: Option<nat>): Timer {
    if Fires(tm, now) then Timer(Encode(tick), tick, false)
    else tm.(delay := Rearmed(tm), woken := false)
  }

  /** The armed deadline is never earlier than the next tick, and unless a wake-up is
      outstanding it is the next tick: there is no timer exactly when there is no tick. */
  ghost predicate Armed(tm: Timer) {
    && tm.nextTick <= NEVER
    && (tm.delay.Some? ==> tm.nextTick <= tm.delay.value < NEVER)
    && (!tm.woken ==> tm.delay == Decode(tm.nextTick))
  }

  /** The deadline, the re-arming and the wake-ups amount to this: the callback runs at a
      poll exactly when the next tick has come. */
  lemma FiresExactlyWhenDue(tm: Timer, now: nat)
    requires Armed(tm)
    ensures Fires(tm, now) <==> tm.nextTick != NEVER && tm.nextTick <= now
  {
  }

  // ---- Runs --------------------------------------------------------------------------

  datatype Event = Hasten(tick: nat) | Poll(now: nat, answer: Option<nat>)

  ghost predicate Legal(e: Event) {
    match e
    case Hasten(tick) => tick <= U64_MAX
    case Poll(_, answer) => answer.Some? ==> answer.value < NEVER
  }

  function Step(tm: Timer, e: Event): Timer {
    match e
    case Hasten(tick) => Hastened(tm, tick)
    case Poll(now, answer) => Polled(tm, now, answer)
  }

  function Run(tm: Timer, es: seq<Event>): Timer {
    if es == [] then tm else Step(Run(tm, es[..|es| - 1]), es[|es| - 1])
  }

  predicate FiresAt(tm: Timer, es: seq<Event>, k: nat)
    requires k < |es|
  {
    es[k].Poll? && Fires(Run(tm, es[..k]), es[k].now)
  }

  lemma {:induction false} RunStaysArmed(tm: Timer, es: seq<Event>)
    requires Armed(tm) && forall e :: e in es ==> Legal(e)
    ensures Armed(Run(tm, es))
  {
    if es != [] {
      RunStaysArmed(tm, es[..|es| - 1]);
      assert Legal(es[|es| - 1]);
    }
  }

  /** The ticks asked for since the callback last ran: its answer (or the first tick), then
      the `hasten` arguments. */
  function Requested(first: Option<nat>, es: seq<Event>): seq<nat> {
    if es == [] then [Encode(first)]
    else
      var init, e := es[..|es| - 1], es[|es| - 1];
      match e
      case Hasten(tick) => Requested(first, init) + [tick]
      case Poll(now, answer) =>
        if FiresAt(Spawned(first), es, |init|) then [Encode(answer)] else Requested(first, init)
  }

  ghost predicate IsMinimum(m: nat, s: seq<nat>) {
    m in s && forall x :: x in s ==> m <= x
  }

  /** Over all runs, the next tick is the earliest tick asked for since the callback last
      ran: none is lost, and none is invented. */
  lemma {:induction false} NextTickIsEarliestRequest(first: Option<nat>, es: seq<Event>)
    ensures IsMinimum(Run(Spawned(first), es).nextTick, Requested(first, es))
  {
    if es != [] {
      NextTickIsEarliestRequest(first, es[..|es| - 1]);
    }
  }

  /** After `hasten(tick)`, whatever happens in between, the callback has run by the first
      poll at or after `tick`. */
  lemma {:induction false} HastenIsHonoured(tm: Timer, tick: nat, es: seq<Event>, now: nat)
    requires Armed(tm) && tick < NEVER && tick <= now
    requires forall e :: e in es ==> Legal(e)
    ensures
      var run := [Hasten(tick)] + es + [Poll(now, None)];
      exists k: nat :: k < |run| && FiresAt(tm, run, k)
  {
    var run := [Hasten(tick)] + es + [Poll(now, None)];
    if k: nat :| k < |run| - 1 && FiresAt(tm, run, k) {
    } else {
      StaysRequested(tm, tick, run, |run| - 1);
      RunStaysArmed(tm, run[..|run| - 1]);
      FiresExactlyWhenDue(Run(tm, run[..|run| - 1]), now);
      assert FiresAt(tm, run, |run| - 1);
    }
  }

  lemma {:induction false} StaysRequested(tm: Timer, tick: nat, run: seq<Event>, k: nat)
    requires 0 < k <= |run| && run[0] == Hasten(tick)
    requires forall j: nat :: j < k ==> !FiresAt(tm, run, j)
    ensures Run(tm, run[..k]).nextTick <= tick
  {
    assert run[..k][..k - 1] == run[..k - 1];
    assert !FiresAt(tm, run, k - 1);
    if k > 1 {
      StaysRequested(tm, tick, run, k - 1);
    }
  }

  // ---- The objects -------------------------------------------------------------------

  class Handle {
    var nextTick: nat
    var woken: bool

    constructor (first: Option<nat>)
      ensures nextTick == Encode(first) && woken
    {
      nextTick := Encode(first);
      woken := true;
    }

    method Hasten(tick: nat)
      modifies this
      ensures Timer(nextTick, None, woken) == Hastened(Timer(old(nextTick), None, old(woken)), tick)
    {
      var prev := nextTick;
      nextTick := if tick < prev then tick else prev;
      if tick < prev {
        woken := true;
      }
    }

    function DecodeNextTick(): Option<nat>
      reads this
    {
      Decode(nextTick)
    }
  }

  class Scheduler {
    const handle: Handle
    var delay: Option<nat>

    function View(): Timer
      reads this, handle
    {
      Timer(handle.nextTick, delay, handle.woken)
    }

    constructor (handle: Handle)
      ensures this.handle == handle && delay == Decode(handle.nextTick)
    {
      this.handle := handle;
      delay := handle.DecodeNextTick();
    }

    /** `poll` up to the callback: re-arms the timer and tells whether it has elapsed. */
    method PollDelay(now: nat) returns (ready: bool)
      modifies this, handle
      ensures ready == Fires(old(View()), now)
      ensures View() == old(View()).(delay := Rearmed(old(View())), woken := false)
    {
      handle.woken := false;
      if delay.Some? {
        var next := handle.DecodeNextTick();
        if next.Some? && next.value < delay.value {
          delay := next;
        }
      } else {
        var next := handle.DecodeNextTick();
        if next.Some? {
          delay := next;
        } else {
          return false;
        }
      }
      ready := delay.value <= now;
    }

    /** `poll` after the callback has answered `tick`. */
    method Reset(tick: Option<nat>)
      modifies this, handle`nextTick
      ensures View() == Timer(Encode(tick), tick, old(View()).woken)
    {
      if tick.Some? {
        handle.nextTick := tick.value;
        delay := tick;
      } else {
        handle.nextTick := NEVER;
        delay := None;
      }
    }
  }
}
