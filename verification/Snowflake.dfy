/** Snowflake ids and the times that they encode. */
module Snowflake {
  import opened Basics

  const TWEPOCH := 1288834974657
  const U32_MAX := 0xFFFF_FFFF
  const TIMES_2_22 := 0x40_0000

  /** A time since the Unix epoch. */
  datatype Duration = Duration(secs: nat, nanos: nat)

  ghost predicate Normal(d: Duration) {
    d.nanos < 1_000_000_000
  }

  /** `Duration::new` carries whole seconds over from the nanoseconds, which are a `u32`. */
  function NewDuration(secs: nat, nanos: nat): (d: Duration)
    requires nanos <= U32_MAX
    ensures Normal(d) && d.secs * 1_000_000_000 + d.nanos == secs * 1_000_000_000 + nanos
  {
    Duration(secs + nanos / 1_000_000_000, nanos % 1_000_000_000)
  }

  function Millis(d: Duration): nat {
    d.secs * 1000 + d.nanos / 1_000_000
  }

  function ToSystemTime(id: nat): Duration {
    var ms := id / TIMES_2_22;
    NewDuration(ms / 1000 + TWEPOCH / 1000, (ms % 1000 + TWEPOCH % 1000) * 1_000_000)
  }

  /** `None` is a panic: the time is before the Twitter epoch, or too late for 64 bits. */
  function ToSnowflake(t: Duration): Option<nat> {
    if Millis(t) < TWEPOCH then None
    else
      var id := (Millis(t) - TWEPOCH) * TIMES_2_22;
      if id > U64_MAX then None else Some(id)
  }

  /** The time of an id is its upper bits, counted in milliseconds from the Twitter epoch. */
  lemma TimeOfSnowflake(id: nat)
    ensures Normal(ToSystemTime(id))
    ensures Millis(ToSystemTime(id)) == id / TIMES_2_22 + TWEPOCH
    ensures Millis(ToSystemTime(id)) == id / 4_194_304 + 1_288_834_974_657
    ensures ToSystemTime(id).nanos % 1_000_000 == 0
  {
    var ms := id / TIMES_2_22;
    var x := ms % 1000 + TWEPOCH % 1000;
    assert x < 2000;
    if x < 1000 {
      assert ToSystemTime(id) == Duration(ms / 1000 + TWEPOCH / 1000, x * 1_000_000);
    } else {
      assert ToSystemTime(id) == Duration(ms / 1000 + TWEPOCH / 1000 + 1, (x - 1000) * 1_000_000);
    }
  }

  lemma SnowflakeExistsWithin42Bits(t: Duration)
    ensures ToSnowflake(t).Some? <==> TWEPOCH <= Millis(t) < TWEPOCH + 0x400_0000_0000
  {
  }

  /** The two conversions are adjoint: comparing ids is comparing milliseconds. */
  lemma SnowflakeIsAdjoint(t: Duration, id: nat)
    requires ToSnowflake(t).Some?
    ensures ToSnowflake(t).value <= id <==> Millis(t) <= Millis(ToSystemTime(id))
  {
    TimeOfSnowflake(id);
    var ms := Millis(t) - TWEPOCH;
    assert ms * TIMES_2_22 <= id <==> ms <= id / TIMES_2_22;
  }

  /** There and back clears exactly the low 22 bits. */
  lemma SnowflakeRoundTrip(id: nat)
    requires id <= U64_MAX
    ensures ToSnowflake(ToSystemTime(id)) == Some(id - id % TIMES_2_22)
  {
    TimeOfSnowflake(id);
  }

  /** Back and there truncates to the millisecond. */
  lemma SystemTimeRoundTrip(t: Duration)
    requires Normal(t) && ToSnowflake(t).Some?
    ensures ToSystemTime(ToSnowflake(t).value) == Duration(t.secs, t.nanos - t.nanos % 1_000_000)
  {
    var id := ToSnowflake(t).value;
    TimeOfSnowflake(id);
    assert id / TIMES_2_22 == Millis(t) - TWEPOCH;
    SameMillis(ToSystemTime(id), Duration(t.secs, t.nanos - t.nanos % 1_000_000));
  }

  lemma SameMillis(a: Duration, b: Duration)
    requires Normal(a) && Normal(b) && Millis(a) == Millis(b)
    requires a.nanos % 1_000_000 == 0 && b.nanos % 1_000_000 == 0
    ensures a == b
  {
    assert a.nanos / 1_000_000 < 1000 && b.nanos / 1_000_000 < 1000;
    assert a.secs == b.secs;
  }

  // ---- The lower bound of list requests ----------------------------------------------

  /** `newest` is the largest id seen, 0 for none; `horizon` is the time now less the
      configured delay. The inner `None` of the result is a request without a bound, the
      outer one a panic. */
  function SinceId(newest: int, horizon: Duration): Option<Option<int>> {
    if newest == 0 then Some(None)
    else
      match ToSnowflake(horizon)
      case None => None
      case Some(min) =>
        if min > I64_MAX then None else Some(Some(if newest <= min then newest else min))
  }

  /** A request is bounded exactly if something was seen; the bound is then the lower of the
      newest id seen and the horizon. It panics exactly if the horizon is needed and lies before
      the Twitter epoch, or so late that its id does not fit in an `i64`. */
  lemma SinceIdIsBoundedIff(newest: int, horizon: Duration)
    ensures SinceId(newest, horizon) == Some(None) <==> newest == 0
    ensures SinceId(newest, horizon) == None <==>
      newest != 0 && !(TWEPOCH <= Millis(horizon) && (Millis(horizon) - TWEPOCH) * TIMES_2_22 <= I64_MAX)
    ensures SinceId(newest, horizon).Some? && newest != 0 ==>
      var bound := SinceId(newest, horizon).value.value;
      var limit := (Millis(horizon) - TWEPOCH) * TIMES_2_22;
      bound <= newest && bound <= limit && (bound == newest || bound == limit)
  {
  }

  /** A bounded request leaves out exactly the ids that are neither above the newest seen nor
      above the horizon, and so none that is stamped in a later millisecond than it. */
  lemma SinceIdLeavesOutOnlySeen(newest: int, horizon: Duration, id: nat)
    requires SinceId(newest, horizon).Some? && SinceId(newest, horizon).value.Some?
    ensures
      var since := SinceId(newest, horizon).value.value;
      && (id > since <==> id > newest || id > ToSnowflake(horizon).value)
      && (Millis(horizon) < Millis(ToSystemTime(id)) ==> id > since)
  {
    SnowflakeIsAdjoint(horizon, id);
    TimeOfSnowflake(id);
  }
}
