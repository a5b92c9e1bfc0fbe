/** The subscriber as a transition system: the tables, the renewal timer and the clock,
    driven by handlers and timer polls, each one atomic step, and by crashes that may fall
    between any two commits of a step and are followed by a restart. */
module Protocol {
  import opened Basics
  import opened Tables
  import opened RenewalTimer

  // ---- Times -------------------------------------------------------------------------

  /** `now.saturating_add(lease)` cut down to an `i64`. */
  function Expires(now: nat, lease: nat): (r: nat)
    ensures r == if now + lease <= I64_MAX then now + lease else I64_MAX
  {
    var sum := if now + lease <= U64_MAX then now + lease else U64_MAX;
    if sum <= I64_MAX then sum else I64_MAX
  }

  function TickOf(expires: int, margin: nat): nat {
    if expires < 0 then 0 else WrappingSub(expires, margin)
  }

  /** When a subscription should be renewed; 0 stands for "at once". */
  function RenewalTime(expires: int, margin: nat): nat {
    if expires < margin then 0 else expires - margin
  }

  /** `ORDER BY expires_at ASC LIMIT 1`. */
  function First(expiries: set<int>): (r: Option<int>)
    ensures r == None <==> expiries == {}
    ensures r.Some? ==> r.value in expiries && forall x :: x in expiries ==> r.value <= x
  {
    if expiries == {} then None
    else
      LeastExists(expiries);
      var m :| m in expiries && forall x :: x in expiries ==> m <= x;
      Some(m)
  }

  ghost predicate ExpiriesFit(t: Tables) {
    forall id :: id in t.active ==> t.active[id] <= I64_MAX
  }

  /** The query at startup covers every active subscription. */
  function FirstTick(t: Tables, margin: nat): Option<nat> {
    match First(t.active.Values)
    case None => None
    case Some(e) => Some(TickOf(e, margin))
  }

  function Unrenewed(t: Tables): set<int> {
    set id | id in t.active && id !in t.renewing.Values :: t.active[id]
  }

  /** The query of the scheduler's callback leaves out what is being renewed. */
  function NextTick(t: Tables, margin: nat): Option<nat> {
    match First(Unrenewed(t))
    case None => None
    case Some(e) => Some(TickOf(e, margin))
  }

  /** `tick` is the earliest renewal time among `ids`, none if there are no ids. */
  ghost predicate IsEarliest(tick: Option<nat>, t: Tables, ids: set<int>, margin: nat)
    requires ids <= t.active.Keys
  {
    if tick == None then ids == {}
    else
      && (exists id :: id in ids && tick == Some(RenewalTime(t.active[id], margin)))
      && (forall id :: id in ids ==> tick.value <= RenewalTime(t.active[id], margin))
  }

  /** The first tick is for the earliest of all active subscriptions, the next one for the
      earliest of those that are not being renewed, unless a subtraction wraps. */
  lemma TicksAreEarliest(t: Tables, margin: nat)
    requires margin <= I64_MAX && forall id :: id in t.active ==> margin <= t.active[id] <= I64_MAX
    ensures IsEarliest(FirstTick(t, margin), t, t.active.Keys, margin)
    ensures IsEarliest(NextTick(t, margin), t, (set id | id in t.active && id !in t.renewing.Values), margin)
  {
    var free := set id | id in t.active && id !in t.renewing.Values;
    assert forall id :: id in t.active ==> t.active[id] in t.active.Values;
    assert forall id :: id in free ==> t.active[id] in Unrenewed(t);
    var e := First(t.active.Values);
    if e.Some? {
      var id := KeyOf(t.active, e.value);
      assert id in t.active.Keys;
    } else {
      assert t.active.Keys == {};
    }
    var u := First(Unrenewed(t));
    if u.Some? {
      var id :| id in t.active && id !in t.renewing.Values && t.active[id] == u.value;
      assert id in free;
    } else {
      assert free == {};
    }
  }

  function Take(cs: seq<Commit>, k: nat): seq<Commit> {
    if k <= |cs| then cs[..k] else cs
  }

  lemma CutIsWellFormed(t: Tables, cs: seq<Commit>, k: nat)
    requires WellFormed(t) && AllEnabled(t, cs)
    ensures AllEnabled(t, Take(cs, k)) && WellFormed(ApplyAll(t, Take(cs, k)))
  {
    EveryCrashPointIsWellFormed(t, cs, |Take(cs, k)|);
    assert cs[..|Take(cs, k)|] == Take(cs, k);
  }

  // ---- Renewals ----------------------------------------------------------------------

  function Due(t: Tables, now: nat, margin: nat): set<int> {
    set id | id in t.active && t.active[id] <= now + margin + 1 && id !in t.renewing.Values
  }

  ghost predicate AllRenew(cs: seq<Commit>) {
    forall k :: 0 <= k < |cs| ==> cs[k].Renew?
  }

  /** The subscriptions that `cs` renews. */
  function Olds(cs: seq<Commit>): set<int> {
    if cs == [] then {}
    else Olds(cs[..|cs| - 1]) + if cs[|cs| - 1].Renew? then {cs[|cs| - 1].old_} else {}
  }

  /** The fresh ids that `cs` renews them under. */
  function Ids(cs: seq<Commit>): set<int> {
    if cs == [] then {}
    else Ids(cs[..|cs| - 1]) + if cs[|cs| - 1].Renew? then {cs[|cs| - 1].id} else {}
  }

  /** `cs[k]` renews one of `due`, and no earlier one does: with its own hub and topic, and
      under an id that neither the tables nor an earlier commit has. */
  ghost predicate RenewsAt(t: Tables, cs: seq<Commit>, due: set<int>, k: nat)
    requires k < |cs|
  {
    var c := cs[k];
    && c.Renew?
    && c.old_ in due && c.old_ !in Olds(cs[..k])
    && c.old_ in t.subs && SameFeed(c.row, t.subs[c.old_])
    && c.id !in t.subs && c.id !in Ids(cs[..k]) && 0 <= c.id <= I64_MAX
  }

  ghost predicate RenewsSome(t: Tables, cs: seq<Commit>, due: set<int>) {
    forall k: nat :: k < |cs| ==> RenewsAt(t, cs, due, k)
  }

  /** `cs` renews each of `due` once, in some order and under some free ids: all that the
      query and the random numbers decide. */
  ghost predicate Renewals(t: Tables, cs: seq<Commit>, due: set<int>) {
    RenewsSome(t, cs, due) && due <= Olds(cs)
  }

  /** `t'` is `t` with one renewal of each of `olds`, under the ids `ids`. */
  ghost predicate AddsRenewals(t: Tables, t': Tables, olds: set<int>, ids: set<int>) {
    && t'.active == t.active
    && t'.renewing.Values == t.renewing.Values + olds
    && t'.renewing.Keys == t.renewing.Keys + ids
    && t'.pending == t.pending + ids
    && t'.subs.Keys == t.subs.Keys + ids
    && ids !! t.subs.Keys
  }

  lemma AddsRenewalsTransitively(t: Tables, t1: Tables, t2: Tables, olds: set<int>, ids: set<int>, c: Commit)
    requires c.Renew? && AddsRenewals(t, t1, olds, ids) && AddsRenewals(t1, t2, {c.old_}, {c.id})
    ensures AddsRenewals(t, t2, olds + {c.old_}, ids + {c.id})
  {
  }

  lemma {:induction false} RenewalsAddExactly(t: Tables, cs: seq<Commit>)
    requires t.renewing.Keys <= t.subs.Keys && AllEnabled(t, cs) && AllRenew(cs)
    ensures AddsRenewals(t, ApplyAll(t, cs), Olds(cs), Ids(cs))
  {
    if cs != [] {
      var init, c := cs[..|cs| - 1], cs[|cs| - 1];
      var t1 := ApplyAll(t, init);
      RenewalsAddExactly(t, init);
      RenewalAddsOne(t1, c);
      AddsRenewalsTransitively(t, t1, Apply(t1, c), Olds(init), Ids(init), c);
    }
  }

  lemma RenewalIsNew(t: Tables, t1: Tables, olds: set<int>, ids: set<int>, c: Commit)
    requires AddsRenewals(t, t1, olds, ids) && c.Renew? && Enabled(t1, c)
    ensures c.id !in ids && c.old_ !in olds
    ensures |ids + {c.id}| == |ids| + 1 && |olds + {c.old_}| == |olds| + 1
  {
  }

  /** No subscription is renewed twice. */
  lemma {:induction false} RenewalsAreDistinct(t: Tables, cs: seq<Commit>)
    requires t.renewing.Keys <= t.subs.Keys && AllEnabled(t, cs) && AllRenew(cs)
    ensures |Ids(cs)| == |Olds(cs)| == |cs|
  {
    if cs != [] {
      var init, c := cs[..|cs| - 1], cs[|cs| - 1];
      RenewalsAreDistinct(t, init);
      RenewalsAddExactly(t, init);
      RenewalIsNew(t, ApplyAll(t, init), Olds(init), Ids(init), c);
    }
  }

  lemma RenewalAddsOne(t: Tables, c: Commit)
    requires c.Renew? && Enabled(t, c) && t.renewing.Keys <= t.subs.Keys
    ensures AddsRenewals(t, Apply(t, c), {c.old_}, {c.id})
  {
    var t' := Apply(t, c);
    assert t'.renewing[c.id] == c.old_;
    forall o | o in t.renewing.Values
      ensures o in t'.renewing.Values
    {
      var k := KeyOf(t.renewing, o);
      assert t'.renewing[k] == o;
    }
  }

  lemma RenewalsSnoc(t: Tables, cs: seq<Commit>, c: Commit)
    requires AllEnabled(t, cs) && AllRenew(cs) && c.Renew? && Enabled(ApplyAll(t, cs), c)
    ensures AllEnabled(t, cs + [c]) && AllRenew(cs + [c])
    ensures Olds(cs + [c]) == Olds(cs) + {c.old_}
    ensures ApplyAll(t, cs + [c]) == Apply(ApplyAll(t, cs), c)
  {
    ApplySnoc(t, cs, c);
    assert (cs + [c])[..|cs|] == cs;
  }

  lemma {:induction false} RowsAreKept(t: Tables, cs: seq<Commit>)
    requires AllEnabled(t, cs) && AllRenew(cs)
    ensures forall id :: id in t.subs ==> id in ApplyAll(t, cs).subs && ApplyAll(t, cs).subs[id] == t.subs[id]
  {
    if cs != [] {
      RowsAreKept(t, cs[..|cs| - 1]);
    }
  }

  /** Each renewal leaves a pending row of its own, and the pair that ties it to the old one. */
  lemma {:induction false} RenewedRows(t: Tables, cs: seq<Commit>, k: nat)
    requires t.renewing.Keys <= t.subs.Keys && AllEnabled(t, cs) && AllRenew(cs) && k < |cs|
    ensures
      var t', c := ApplyAll(t, cs), cs[k];
      && c.id in t'.subs && t'.subs[c.id] == c.row && c.id in t'.pending
      && c.id in t'.renewing && t'.renewing[c.id] == c.old_
  {
    var init := cs[..|cs| - 1];
    RenewalsAddExactly(t, init);
    if k < |init| {
      RenewedRows(t, init, k);
    }
  }

  lemma RenewsSomeSnoc(t: Tables, cs: seq<Commit>, due: set<int>)
    requires cs != []
    ensures RenewsSome(t, cs, due) <==>
      RenewsSome(t, cs[..|cs| - 1], due) && RenewsAt(t, cs, due, |cs| - 1)
  {
    var init := cs[..|cs| - 1];
    forall k: nat | k < |init|
      ensures RenewsAt(t, cs, due, k) <==> RenewsAt(t, init, due, k)
    {
      assert init[..k] == cs[..k];
    }
  }

  lemma NextIsEnabledIff(t: Tables, cs: seq<Commit>, due: set<int>)
    requires cs != [] && WellFormed(t) && due <= t.active.Keys && due !! t.renewing.Values
    requires AllEnabled(t, cs[..|cs| - 1]) && AllRenew(cs[..|cs| - 1])
    ensures
      var c := cs[|cs| - 1];
      RenewsAt(t, cs, due, |cs| - 1) <==> c.Renew? && c.old_ in due && Enabled(ApplyAll(t, cs[..|cs| - 1]), c)
  {
    RenewalsAddExactly(t, cs[..|cs| - 1]);
    RowsAreKept(t, cs[..|cs| - 1]);
  }

  /** Renewals of active subscriptions that are not being renewed are exactly what the
      constraints let through: no statement of theirs fails, so no unwrap panics. */
  lemma {:induction false} RenewalsAreEnabledIff(t: Tables, cs: seq<Commit>, due: set<int>)
    requires WellFormed(t) && due <= t.active.Keys && due !! t.renewing.Values
    ensures RenewsSome(t, cs, due) <==> AllEnabled(t, cs) && AllRenew(cs) && Olds(cs) <= due
    ensures Renewals(t, cs, due) <==> AllEnabled(t, cs) && AllRenew(cs) && Olds(cs) == due
  {
    if cs != [] {
      var init := cs[..|cs| - 1];
      RenewalsAreEnabledIff(t, init, due);
      RenewsSomeSnoc(t, cs, due);
      if AllEnabled(t, init) && AllRenew(init) {
        NextIsEnabledIff(t, cs, due);
      }
      assert AllRenew(cs) <==> AllRenew(init) && cs[|cs| - 1].Renew?;
    }
  }

  // ---- There are renewals as long as there are ids ------------------------------------

  lemma {:induction false} FreeIdIff(ids: set<int>, n: nat)
    requires forall id :: id in ids ==> 0 <= id < n
    ensures |ids| <= n
    ensures |ids| < n ==> exists id :: 0 <= id < n && id !in ids
  {
    if n > 0 {
      FreeIdIff(ids - {n - 1}, n - 1);
      if |ids| < n && n - 1 in ids {
        var id :| 0 <= id < n - 1 && id !in ids - {n - 1};
        assert 0 <= id < n && id !in ids;
      }
    } else {
      EmptyOrNot(ids);
    }
  }

  ghost predicate IdsLeft(t: Tables, due: set<int>) {
    |t.subs.Keys| + |due| <= I64_MAX + 1
  }

  lemma {:induction false} IdsAreInRange(t: Tables, cs: seq<Commit>, due: set<int>)
    requires RenewsSome(t, cs, due)
    ensures forall id :: id in Ids(cs) ==> 0 <= id <= I64_MAX
  {
    if cs != [] {
      RenewsSomeSnoc(t, cs, due);
      IdsAreInRange(t, cs[..|cs| - 1], due);
    }
  }

  /** All the ids in use after the renewals are distinct and in range. */
  lemma RenewalsTakeIds(t: Tables, cs: seq<Commit>, due: set<int>)
    requires WellFormed(t) && due <= t.active.Keys && due !! t.renewing.Values
    requires Renewals(t, cs, due)
    ensures Olds(cs) == due && |Ids(cs)| == |due|
    ensures |t.subs.Keys + Ids(cs)| == |t.subs.Keys| + |due|
    ensures forall id :: id in t.subs.Keys + Ids(cs) ==> 0 <= id < I64_MAX + 1
  {
    IdsAreInRange(t, cs, due);
    IdsAreNew(t, cs, due);
    DisjointSizes(t.subs.Keys, Ids(cs));
  }

  lemma IdsAreNew(t: Tables, cs: seq<Commit>, due: set<int>)
    requires WellFormed(t) && due <= t.active.Keys && due !! t.renewing.Values
    requires Renewals(t, cs, due)
    ensures Olds(cs) == due && |Ids(cs)| == |due| && t.subs.Keys !! Ids(cs)
  {
    RenewalsAreEnabledIff(t, cs, due);
    RenewalsAreDistinct(t, cs);
    RenewalsAddExactly(t, cs);
  }

  lemma DisjointSizes(a: set<int>, b: set<int>)
    requires a !! b
    ensures |a + b| == |a| + |b|
  {
  }

  lemma NextRenewal(t: Tables, cs: seq<Commit>, due: set<int>, o: int) returns (id: int)
    requires WellFormed(t) && due <= t.active.Keys && due !! t.renewing.Values
    requires Renewals(t, cs, due) && IdsLeft(t, due + {o}) && o !in due
    ensures 0 <= id <= I64_MAX && id !in t.subs && id !in Ids(cs) && Olds(cs) == due
  {
    RenewalsTakeIds(t, cs, due);
    var taken := t.subs.Keys + Ids(cs);
    FreeIdIff(taken, I64_MAX + 1);
    id :| 0 <= id < I64_MAX + 1 && id !in taken;
  }

  lemma {:induction false} SomeRenewals(t: Tables, due: set<int>)
    requires WellFormed(t) && due <= t.active.Keys && due !! t.renewing.Values
    requires IdsLeft(t, due)
    ensures exists cs :: Renewals(t, cs, due)
    decreases |due|
  {
    if due == {} {
      assert Renewals(t, [], due);
    } else {
      var o := MemberOf(due);
      var rest := due - {o};
      assert rest + {o} == due;
      SomeRenewals(t, rest);
      var init :| Renewals(t, init, rest);
      var id := NextRenewal(t, init, rest, o);
      OneMoreRenewal(t, init, rest, Renew(o, id, t.subs[o]));
    }
  }

  /** There are renewals of everything that is due if and only if there are ids left. */
  lemma RenewalsExistIff(t: Tables, due: set<int>)
    requires WellFormed(t) && due <= t.active.Keys && due !! t.renewing.Values
    ensures (exists cs :: Renewals(t, cs, due)) <==> IdsLeft(t, due)
  {
    if cs :| Renewals(t, cs, due) {
      RenewalsTakeIds(t, cs, due);
      FreeIdIff(t.subs.Keys + Ids(cs), I64_MAX + 1);
    } else if IdsLeft(t, due) {
      SomeRenewals(t, due);
    }
  }

  lemma OneMoreRenewal(t: Tables, cs: seq<Commit>, due: set<int>, c: Commit)
    requires WellFormed(t) && Renewals(t, cs, due)
    requires c.Renew? && c.old_ in t.active && c.old_ !in due && c.row == t.subs[c.old_]
    requires c.id !in t.subs && c.id !in Ids(cs) && 0 <= c.id <= I64_MAX
    requires Olds(cs) == due
    ensures Renewals(t, cs + [c], due + {c.old_})
  {
    assert (cs + [c])[..|cs|] == cs;
    forall k: nat | k < |cs|
      ensures RenewsAt(t, cs, due + {c.old_}, k)
    {
      assert RenewsAt(t, cs, due, k);
    }
    RenewsSomeSnoc(t, cs + [c], due + {c.old_});
  }

  lemma StillUnrenewed(t: Tables, cs: seq<Commit>, id: int)
    requires t.renewing.Keys <= t.subs.Keys && AllEnabled(t, cs) && AllRenew(cs)
    requires id in t.active && id !in t.renewing.Values && id !in Olds(cs)
    ensures id in ApplyAll(t, cs).active && id !in ApplyAll(t, cs).renewing.Values
  {
    RenewalsAddExactly(t, cs);
  }

  lemma RenewalsKeepActive(t: Tables, cs: seq<Commit>)
    requires t.renewing.Keys <= t.subs.Keys && AllEnabled(t, cs) && AllRenew(cs)
    ensures ApplyAll(t, cs).active == t.active
  {
    RenewalsAddExactly(t, cs);
  }

  lemma RenewedIff(t: Tables, cs: seq<Commit>, now: nat, margin: nat)
    requires WellFormed(t) && Renewals(t, cs, Due(t, now, margin))
    ensures forall id :: id in ApplyAll(t, cs).renewing.Values <==>
      id in t.renewing.Values || (id in t.active && t.active[id] <= now + margin + 1)
  {
    RenewalsAreEnabledIff(t, cs, Due(t, now, margin));
    RenewalsAddExactly(t, cs);
  }

  lemma PollRenewsExactlyDue(t: Tables, cs: seq<Commit>, now: nat, margin: nat)
    requires WellFormed(t) && Renewals(t, cs, Due(t, now, margin))
    ensures AddsRenewals(t, ApplyAll(t, cs), Due(t, now, margin), Ids(cs))
    ensures |Ids(cs)| == |Due(t, now, margin)|
    ensures forall e :: e in Unrenewed(ApplyAll(t, cs)) ==> e > now + margin + 1
  {
    RenewalsAreEnabledIff(t, cs, Due(t, now, margin));
    RenewalsAddExactly(t, cs);
    RenewalsAreDistinct(t, cs);
  }

  // ---- Verification of intent --------------------------------------------------------

  predicate Confirms(t: Tables, id: int, topic: string) {
    id in t.subs && t.subs[id].topic == topic && id !in t.active
  }

  /** A subscription can be confirmed exactly while it is pending, and under its own topic. */
  lemma ConfirmsIff(t: Tables, id: int, topic: string)
    requires WellFormed(t)
    ensures Confirms(t, id, topic) <==> id in t.pending && t.subs[id].topic == topic
  {
  }

  function Activation(t: Tables, id: int, expires: int): seq<Commit> {
    (if id in t.renewing then [Drop(t.renewing[id])] else []) + [Activate(id, expires)]
  }

  function ActiveFor(t: Tables, hub: string, topic: string): set<int> {
    set id | id in t.active && id in t.subs && t.subs[id].hub == hub && t.subs[id].topic == topic
  }

  lemma ActivationIsEnabled(t: Tables, id: int, topic: string, expires: int)
    requires WellFormed(t) && Confirms(t, id, topic)
    ensures AllEnabled(t, Activation(t, id, expires))
  {
    if id in t.renewing {
      var o := t.renewing[id];
      assert o in t.renewing.Values;
      ApplyTwo(t, Drop(o), Activate(id, expires));
      assert Activation(t, id, expires) == [Drop(o), Activate(id, expires)];
    } else {
      ApplyOne(t, Activate(id, expires));
      assert Activation(t, id, expires) == [Activate(id, expires)];
    }
  }

  lemma ActivationDropsThenActivates(t: Tables, id: int, expires: int)
    requires id in t.renewing
    ensures ApplyAll(t, Activation(t, id, expires)) ==
      Apply(Apply(t, Drop(t.renewing[id])), Activate(id, expires))
  {
    var o := t.renewing[id];
    ApplyTwo(t, Drop(o), Activate(id, expires));
    assert Activation(t, id, expires) == [Drop(o), Activate(id, expires)];
  }

  /** Confirming a renewal swaps the old subscription for the new one and touches nothing
      else; the two were subscriptions to one topic at one hub. */
  lemma ConfirmedRenewalIsASwap(t: Tables, id: int, expires: int)
    requires WellFormed(t) && id in t.renewing
    ensures
      var o := t.renewing[id];
      var t' := ApplyAll(t, Activation(t, id, expires));
      && id != o && o in t.active && id !in t.active
      && t'.active == (t.active - {o})[id := expires]
      && t'.pending == t.pending - {id}
      && t'.subs == t.subs - {o}
      && t'.renewing == t.renewing - {id}
      && SameFeed(t.subs[id], t.subs[o])
  {
    var o := t.renewing[id];
    assert o in t.renewing.Values;
    ActivationDropsThenActivates(t, id, expires);
    var t1 := Apply(t, Drop(o));
    forall n | n in t.renewing
      ensures n in t1.renewing <==> n != id
    {
    }
    assert t1.renewing == t.renewing - {id};
    assert t1.pending == t.pending;
    assert t1.renewing - {id} == t1.renewing;
  }

  lemma ConfirmedRenewalKeepsTheNumberOfSubscriptions(t: Tables, id: int, expires: int, h: string, p: string)
    requires WellFormed(t) && id in t.renewing
    ensures |ActiveFor(ApplyAll(t, Activation(t, id, expires)), h, p)| == |ActiveFor(t, h, p)|
  {
    ConfirmedRenewalIsASwap(t, id, expires);
    SwapKeepsCount(t, ApplyAll(t, Activation(t, id, expires)), t.renewing[id], id, expires, h, p);
  }

  lemma SwapKeepsCount(t: Tables, t': Tables, o: int, id: int, expires: int, h: string, p: string)
    requires o in t.active && id !in t.active && id in t.subs && o in t.subs
    requires t'.active == (t.active - {o})[id := expires] && t'.subs == t.subs - {o}
    requires SameFeed(t.subs[id], t.subs[o])
    ensures |ActiveFor(t', h, p)| == |ActiveFor(t, h, p)|
  {
    var a, a' := ActiveFor(t, h, p), ActiveFor(t', h, p);
    if o in a {
      assert a' == (a - {o}) + {id};
    } else {
      assert a' == a;
    }
  }

  /** The swap is two commits. A crash between them, and only there, leaves the feed with one
      active subscription less after the restart. */
  lemma CrashBetweenTheCommitsLosesOne(t: Tables, id: int, expires: int, k: nat)
    requires WellFormed(t) && id in t.renewing && k <= 2
    ensures
      var cs := Activation(t, id, expires);
      var t' := Apply(ApplyAll(t, Take(cs, k)), DropDangling);
      var row := t.subs[id];
      |ActiveFor(t', row.hub, row.topic)| == |ActiveFor(t, row.hub, row.topic)| - if k == 1 then 1 else 0
  {
    var o, row := t.renewing[id], t.subs[id];
    assert o in t.renewing.Values;
    var a := ActiveFor(t, row.hub, row.topic);
    var cs := Activation(t, id, expires);
    assert cs[..0] == [] && cs[..1] == [Drop(o)] && cs[..2] == cs;
    ApplyOne(t, Drop(o));
    if k == 2 {
      ConfirmedRenewalKeepsTheNumberOfSubscriptions(t, id, expires, row.hub, row.topic);
      CommitsKeepWellFormed(t, id, expires);
    }
    var t1 := ApplyAll(t, Take(cs, k));
    DropDanglingKeepsActive(t1, row.hub, row.topic);
    if k == 1 {
      assert o in a && ActiveFor(t1, row.hub, row.topic) == a - {o};
    }
  }

  lemma CommitsKeepWellFormed(t: Tables, id: int, expires: int)
    requires WellFormed(t) && id in t.renewing
    ensures WellFormed(ApplyAll(t, Activation(t, id, expires)))
  {
    var cs := Activation(t, id, expires);
    ActivationIsEnabled(t, id, t.subs[id].topic, expires);
    EveryCrashPointIsWellFormed(t, cs, |cs|);
    assert cs[..|cs|] == cs;
  }

  lemma DropDanglingKeepsActive(t: Tables, h: string, p: string)
    ensures ActiveFor(Apply(t, DropDangling), h, p) == ActiveFor(t, h, p)
  {
  }

  /** Confirming a first subscription only moves it from pending to active. */
  lemma ConfirmedSubscriptionOnlyActivates(t: Tables, id: int, topic: string, expires: int)
    requires WellFormed(t) && Confirms(t, id, topic) && id !in t.renewing
    ensures
      ApplyAll(t, Activation(t, id, expires)) ==
      t.(pending := t.pending - {id}, active := t.active[id := expires])
  {
    ApplyOne(t, Activate(id, expires));
    assert Activation(t, id, expires) == [Activate(id, expires)];
    assert t.renewing - {id} == t.renewing;
  }

  // ---- The transition system ---------------------------------------------------------

  datatype State = State(t: Tables, timer: Timer, now: nat)

  /** `PollTimer` carries the renewals that it makes if the timer fires; the ids in them are
      random. `Crash(a, k)` is a crash after `k` commits of `a`, then a restart. */
  datatype Action =
    | Advance(to: nat)
    | Subscribe(id: int, row: Row)
    | Verify(id: int, topic: string, lease: nat)
    | UnsubscribeAll(topic: string)
    | PollTimer(renewals: seq<Commit>)
    | Crash(a: Action, k: nat)

  function Commits(s: State, a: Action): seq<Commit> {
    match a
    case Advance(_) => []
    case Subscribe(id, row) => [Create(id, row)]
    case Verify(id, topic, lease) =>
      if Confirms(s.t, id, topic) then Activation(s.t, id, Expires(s.now, lease)) else []
    case UnsubscribeAll(topic) => [DropTopic(topic)]
    case PollTimer(renewals) => if Fires(s.timer, s.now) then renewals else []
    case Crash(a, k) => Take(Commits(s, a), k) + [DropDangling]
  }

  /** The random ids are fresh, the clock does not go back, and `now + margin + 1` fits in
      an `i64`. */
  ghost predicate Possible(s: State, a: Action, margin: nat) {
    match a
    case Advance(to) => s.now <= to
    case Subscribe(id, row) => Enabled(s.t, Create(id, row))
    case Verify(_, _, lease) => lease <= U64_MAX
    case UnsubscribeAll(_) => true
    case PollTimer(renewals) =>
      && s.now + margin + 1 <= I64_MAX
      && (Fires(s.timer, s.now) ==> Renewals(s.t, renewals, Due(s.t, s.now, margin)))
    case Crash(a, k) => !a.Crash? && Possible(s, a, margin)
  }

  function After(s: State, a: Action, margin: nat): State {
    var t := ApplyAll(s.t, Commits(s, a));
    match a
    case Advance(to) => s.(now := to)
    case Subscribe(_, _) => s.(t := t)
    case Verify(id, topic, lease) =>
      if Confirms(s.t, id, topic) then
        State(t, Hastened(s.timer, TickOf(Expires(s.now, lease), margin)), s.now)
      else s
    case UnsubscribeAll(_) => s.(t := t)
    case PollTimer(_) => State(t, Polled(s.timer, s.now, NextTick(t, margin)), s.now)
    case Crash(a, k) =>
      State(t, Spawned(FirstTick(ApplyAll(s.t, Take(Commits(s, a), k)), margin)), s.now)
  }

  // ---- The invariant -----------------------------------------------------------------

  /** Every active subscription is being renewed, or will be ticked for in time. */
  ghost predicate Watched(t: Tables, nextTick: nat, margin: nat) {
    forall id :: id in t.active && id !in t.renewing.Values ==>
      nextTick <= RenewalTime(t.active[id], margin)
  }

  /** The seconds of a tick fit in an `i64`, which is what an `Instant` counts them in on Unix:
      a deadline beyond that makes the conversion panic. */
  predicate Fits(tick: nat) {
    tick == NEVER || tick <= I64_MAX
  }

  predicate TimerFits(tm: Timer) {
    Fits(tm.nextTick) && (tm.delay.Some? ==> tm.delay.value <= I64_MAX)
  }

  ghost predicate ExpiriesWithin(t: Tables, margin: nat) {
    forall id :: id in t.active ==> margin <= t.active[id] <= I64_MAX
  }

  ghost predicate Inv(s: State, margin: nat) {
    && margin <= s.now
    && margin <= I64_MAX
    && WellFormed(s.t)
    && ExpiriesWithin(s.t, margin)
    && Armed(s.timer)
    && Watched(s.t, s.timer.nextTick, margin)
    && TimerFits(s.timer)
  }

  lemma CommitsAreEnabled(s: State, a: Action, margin: nat)
    requires Inv(s, margin) && Possible(s, a, margin)
    ensures AllEnabled(s.t, Commits(s, a))
  {
    match a {
      case Advance(_) =>
      case Subscribe(id, row) => ApplyOne(s.t, Create(id, row));
      case Verify(id, topic, lease) =>
        if Confirms(s.t, id, topic) {
          ActivationIsEnabled(s.t, id, topic, Expires(s.now, lease));
        }
      case UnsubscribeAll(topic) => ApplyOne(s.t, DropTopic(topic));
      case PollTimer(renewals) => RenewalsAreEnabledIff(s.t, renewals, Due(s.t, s.now, margin));
      case Crash(a, k) =>
        CommitsAreEnabled(s, a, margin);
        CutIsWellFormed(s.t, Commits(s, a), k);
        ApplySnoc(s.t, Take(Commits(s, a), k), DropDangling);
    }
  }

  lemma {:induction false} ExpiriesStayWithin(t: Tables, cs: seq<Commit>, margin: nat)
    requires ExpiriesWithin(t, margin)
    requires forall c :: c in cs && c.Activate? ==> margin <= c.expires <= I64_MAX
    ensures ExpiriesWithin(ApplyAll(t, cs), margin)
  {
    if cs != [] {
      ExpiriesStayWithin(t, cs[..|cs| - 1], margin);
      assert cs[|cs| - 1] in cs;
    }
  }

  lemma ActivationsAreTimely(s: State, a: Action, margin: nat)
    requires Inv(s, margin) && Possible(s, a, margin)
    ensures forall c :: c in Commits(s, a) && c.Activate? ==> margin <= c.expires <= I64_MAX
  {
    match a {
      case PollTimer(renewals) => RenewalsAreEnabledIff(s.t, renewals, Due(s.t, s.now, margin));
      case Crash(a, _) => ActivationsAreTimely(s, a, margin);
      case _ =>
    }
  }

  lemma ActionKeepsExpiries(s: State, a: Action, margin: nat)
    requires Inv(s, margin) && Possible(s, a, margin)
    ensures ExpiriesWithin(ApplyAll(s.t, Commits(s, a)), margin)
    ensures a.Crash? ==> ExpiriesWithin(ApplyAll(s.t, Take(Commits(s, a.a), a.k)), margin)
  {
    ActivationsAreTimely(s, a, margin);
    ExpiriesStayWithin(s.t, Commits(s, a), margin);
    if a.Crash? {
      var cut := Take(Commits(s, a.a), a.k);
      ActivationsAreTimely(s, a.a, margin);
      ExpiriesStayWithin(s.t, cut, margin);
    }
  }

  /** Deleting whole topics removes both ends of a renewal or neither. */
  lemma DropTopicKeepsWatched(t: Tables, topic: string, nextTick: nat, margin: nat)
    requires WellFormed(t) && Watched(t, nextTick, margin)
    ensures Watched(Apply(t, DropTopic(topic)), nextTick, margin)
  {
    var t' := Apply(t, DropTopic(topic));
    forall id | id in t'.active && id in t.renewing.Values
      ensures id in t'.renewing.Values
    {
      var n := KeyOf(t.renewing, id);
      assert n in t'.renewing;
    }
  }

  lemma ActivationKeepsWatched(s: State, id: int, topic: string, lease: nat, margin: nat)
    requires Inv(s, margin) && Confirms(s.t, id, topic) && lease <= U64_MAX
    ensures
      var e := Expires(s.now, lease);
      Watched(ApplyAll(s.t, Activation(s.t, id, e)), Hastened(s.timer, TickOf(e, margin)).nextTick, margin)
  {
    var e := Expires(s.now, lease);
    var t' := ApplyAll(s.t, Activation(s.t, id, e));
    if id in s.t.renewing {
      ConfirmedRenewalIsASwap(s.t, id, e);
      forall j | j in t'.active && j in s.t.renewing.Values
        ensures j in t'.renewing.Values
      {
        var n := KeyOf(s.t.renewing, j);
        assert t'.renewing[n] == j;
      }
    } else {
      ConfirmedSubscriptionOnlyActivates(s.t, id, topic, e);
    }
  }

  lemma PollKeepsWatched(s: State, renewals: seq<Commit>, margin: nat)
    requires Inv(s, margin) && Possible(s, PollTimer(renewals), margin)
    requires ExpiriesWithin(ApplyAll(s.t, Commits(s, PollTimer(renewals))), margin)
    ensures
      var s' := After(s, PollTimer(renewals), margin);
      Watched(s'.t, s'.timer.nextTick, margin) && Armed(s'.timer) && TimerFits(s'.timer)
  {
    var s' := After(s, PollTimer(renewals), margin);
    if Fires(s.timer, s.now) {
      forall id | id in s'.t.active && id !in s'.t.renewing.Values
        ensures s'.timer.nextTick <= RenewalTime(s'.t.active[id], margin)
      {
        assert s'.t.active[id] in Unrenewed(s'.t);
      }
    }
  }

  /** Startup watches everything exactly when the earliest expiry is not a time between the
      epoch and the margin after it; on such a row the subtraction wraps. */
  lemma StartupWatchesIff(t: Tables, margin: nat)
    requires WellFormed(t) && ExpiriesFit(t) && margin <= U64_MAX
    ensures
      Watched(Apply(t, DropDangling), Encode(FirstTick(t, margin)), margin) <==>
      var e := First(t.active.Values); e == None || e.value < 0 || margin <= e.value
  {
    var t' := Apply(t, DropDangling);
    assert forall n :: n in t.renewing ==> t.renewing[n] in t.renewing.Values;
    assert t'.renewing == map[];
    assert t'.active == t.active;
    var e := First(t.active.Values);
    assert forall j :: j in t.active ==> t.active[j] in t.active.Values;
    if e.Some? {
      var id := KeyOf(t.active, e.value);
    }
  }

  /** In exactly those cases, for any margin below 2^63 seconds, the first tick wraps to one
      that no `Instant` can hold. */
  lemma FirstTickFitsIff(t: Tables, margin: nat)
    requires ExpiriesFit(t) && margin <= I64_MAX
    ensures
      FirstTick(t, margin) == None || FirstTick(t, margin).value <= I64_MAX <==>
      var e := First(t.active.Values); e == None || e.value < 0 || margin <= e.value
  {
    var e := First(t.active.Values);
    if e.Some? {
      var id := KeyOf(t.active, e.value);
    }
  }

  /** A database left by an earlier run with a shorter margin: its one subscription expires in
      September 2020 and the margin is now 54 years. The first tick is 584 thousand million
      years ahead, which makes `Subscriber::new` panic where an `Instant` is 64 bits of
      seconds, and is as good as lost where it is not. */
  lemma StartupCanMissATick()
    ensures
      var t := Tables(map[7 := Row("h", "f", "s")], map[7 := 1_600_000_000], {}, map[]);
      var tick := 1_600_000_000 - 1_704_067_200 + U64_MAX + 1;
      && WellFormed(t) && ExpiriesFit(t)
      && FirstTick(t, 1_704_067_200) == Some(tick) && !Fits(tick)
      && !Watched(Apply(t, DropDangling), Encode(FirstTick(t, 1_704_067_200)), 1_704_067_200)
  {
    var t := Tables(map[7 := Row("h", "f", "s")], map[7 := 1_600_000_000], {}, map[]);
    assert t.active[7] in t.active.Values;
    assert t.active.Values == {1_600_000_000};
    assert t.renewing.Values == {};
    StartupWatchesIff(t, 1_704_067_200);
  }

  lemma CrashKeepsWatched(s: State, a: Action, k: nat, margin: nat)
    requires Inv(s, margin) && Possible(s, Crash(a, k), margin)
    requires ExpiriesWithin(ApplyAll(s.t, Commits(s, Crash(a, k))), margin)
    requires ExpiriesWithin(ApplyAll(s.t, Take(Commits(s, a), k)), margin)
    ensures
      var s' := After(s, Crash(a, k), margin);
      Watched(s'.t, s'.timer.nextTick, margin) && Armed(s'.timer) && TimerFits(s'.timer)
  {
    var t := ApplyAll(s.t, Take(Commits(s, a), k));
    CommitsAreEnabled(s, a, margin);
    CutIsWellFormed(s.t, Commits(s, a), k);
    StartupWatchesIff(t, margin);
    ApplySnoc(s.t, Take(Commits(s, a), k), DropDangling);
    var e := First(t.active.Values);
    if e.Some? {
      var id := KeyOf(t.active, e.value);
    }
  }

  lemma StepKeepsInv(s: State, a: Action, margin: nat)
    requires Inv(s, margin) && Possible(s, a, margin)
    ensures Inv(After(s, a, margin), margin)
  {
    var cs := Commits(s, a);
    CommitsAreEnabled(s, a, margin);
    EveryCrashPointIsWellFormed(s.t, cs, |cs|);
    assert cs[..|cs|] == cs;
    ActionKeepsExpiries(s, a, margin);
    match a {
      case Advance(_) =>
      case Subscribe(id, row) =>
        ApplyOne(s.t, Create(id, row));
      case Verify(id, topic, lease) =>
        if Confirms(s.t, id, topic) {
          ActivationKeepsWatched(s, id, topic, lease, margin);
        }
      case UnsubscribeAll(topic) =>
        ApplyOne(s.t, DropTopic(topic));
        DropTopicKeepsWatched(s.t, topic, s.timer.nextTick, margin);
      case PollTimer(renewals) => PollKeepsWatched(s, renewals, margin);
      case Crash(a, k) => CrashKeepsWatched(s, a, k, margin);
    }
  }

  /** A poll can take place whenever there are ids left for what it renews. */
  lemma PollIsPossibleIff(s: State, margin: nat)
    requires Inv(s, margin) && s.now + margin + 1 <= I64_MAX
    ensures
      (exists renewals :: Possible(s, PollTimer(renewals), margin)) <==>
      (Fires(s.timer, s.now) ==> IdsLeft(s.t, Due(s.t, s.now, margin)))
  {
    var due := Due(s.t, s.now, margin);
    RenewalsExistIff(s.t, due);
    if renewals :| Possible(s, PollTimer(renewals), margin) {
      assert Fires(s.timer, s.now) ==> Renewals(s.t, renewals, due);
    }
    if !Fires(s.timer, s.now) {
      assert Possible(s, PollTimer([]), margin);
    } else if cs :| Renewals(s.t, cs, due) {
      assert Possible(s, PollTimer(cs), margin);
    }
  }

  // ---- Runs --------------------------------------------------------------------------

  /** Startup on the tables `t`: the first tick is read before dangling rows are removed. */
  function Started(t: Tables, now: nat, margin: nat): State {
    State(Apply(t, DropDangling), Spawned(FirstTick(t, margin)), now)
  }

  /** What startup needs of the tables it finds, so that no tick is missed. */
  ghost predicate Leftover(t: Tables, margin: nat) {
    WellFormed(t) && ExpiriesWithin(t, margin)
  }

  ghost predicate IsStartup(s: State, margin: nat) {
    && margin <= I64_MAX && margin <= s.now
    && exists t :: Leftover(t, margin) && s == Started(t, s.now, margin)
  }

  lemma StartupIsGood(s: State, margin: nat)
    requires IsStartup(s, margin)
    ensures Inv(s, margin)
  {
    var t :| Leftover(t, margin) && s == Started(t, s.now, margin);
    StartupWatchesIff(t, margin);
    ApplyKeepsWellFormed(t, DropDangling);
    var e := First(t.active.Values);
    if e.Some? {
      var id := KeyOf(t.active, e.value);
    }
  }

  /** The program's first start, on an empty database, is one. */
  lemma FirstStartIsStartup(now: nat, margin: nat)
    requires margin <= I64_MAX && margin <= now
    ensures IsStartup(State(EMPTY, Spawned(None), now), margin)
  {
    assert Leftover(EMPTY, margin);
    assert Apply(EMPTY, DropDangling) == EMPTY;
    assert Started(EMPTY, now, margin) == State(EMPTY, Spawned(None), now);
  }

  /** `states` is a run of the system under `actions`. */
  ghost predicate IsRun(states: seq<State>, actions: seq<Action>, margin: nat) {
    && |states| == |actions| + 1
    && IsStartup(states[0], margin)
    && forall k :: 0 <= k < |actions| ==> Next(states[k], actions[k], states[k + 1], margin)
  }

  ghost predicate Next(s: State, a: Action, s': State, margin: nat) {
    Possible(s, a, margin) && s' == After(s, a, margin)
  }

  lemma {:induction false} EveryReachableStateIsGood(states: seq<State>, actions: seq<Action>, margin: nat, k: nat)
    requires IsRun(states, actions, margin) && k < |states|
    ensures Inv(states[k], margin)
  {
    if k == 0 {
      StartupIsGood(states[0], margin);
    } else {
      EveryReachableStateIsGood(states, actions, margin, k - 1);
      assert Next(states[k - 1], actions[k - 1], states[k - 1 + 1], margin);
      StepKeepsInv(states[k - 1], actions[k - 1], margin);
    }
  }

  /** No active subscription is ever unwatched: it is being renewed, or the timer task is
      about to be polled, or the timer is set no later than its renewal is due. */
  lemma NoSubscriptionIsUnwatched(states: seq<State>, actions: seq<Action>, margin: nat, k: nat, id: int)
    requires IsRun(states, actions, margin) && k < |states|
    requires id in states[k].t.active
    ensures
      var s := states[k];
      || id in s.t.renewing.Values
      || (&& s.timer.nextTick <= s.t.active[id] - margin
          && (s.timer.woken || (s.timer.delay.Some? && s.timer.delay.value <= s.t.active[id] - margin)))
  {
    EveryReachableStateIsGood(states, actions, margin, k);
  }

  /** No deadline that the timer is ever set to overflows. */
  lemma EveryDeadlineFits(states: seq<State>, actions: seq<Action>, margin: nat, k: nat)
    requires IsRun(states, actions, margin) && k < |states|
    ensures TimerFits(states[k].timer)
  {
    EveryReachableStateIsGood(states, actions, margin, k);
  }

  /** A poll of the timer leaves every subscription whose renewal is due being renewed. */
  lemma PollRenewsWhatIsDue(states: seq<State>, actions: seq<Action>, margin: nat, k: nat, id: int)
    requires IsRun(states, actions, margin) && k < |actions| && actions[k].PollTimer?
    requires id in states[k].t.active && states[k].t.active[id] - margin <= states[k].now
    ensures id in states[k + 1].t.active && id in states[k + 1].t.renewing.Values
  {
    var s, cs := states[k], actions[k].renewals;
    EveryReachableStateIsGood(states, actions, margin, k);
    assert Next(s, actions[k], states[k + 1], margin);
    if id !in s.t.renewing.Values {
      FiresExactlyWhenDue(s.timer, s.now);
    }
    if Fires(s.timer, s.now) {
      PollRenewsExactlyDue(s.t, cs, s.now, margin);
    }
  }

  /** And only that: whatever was not being renewed is after a poll if and only if the poll
      fired and the subscription expires within the margin and a second. */
  lemma PollRenewsIff(states: seq<State>, actions: seq<Action>, margin: nat, k: nat, id: int)
    requires IsRun(states, actions, margin) && k < |actions| && actions[k].PollTimer?
    requires id in states[k].t.active && id !in states[k].t.renewing.Values
    ensures id in states[k + 1].t.active && states[k + 1].t.active[id] == states[k].t.active[id]
    ensures
      id in states[k + 1].t.renewing.Values <==>
      Fires(states[k].timer, states[k].now) && states[k].t.active[id] <= states[k].now + margin + 1
  {
    var s, cs := states[k], actions[k].renewals;
    EveryReachableStateIsGood(states, actions, margin, k);
    assert Next(s, actions[k], states[k + 1], margin);
    if Fires(s.timer, s.now) {
      PollRenewsExactlyDue(s.t, cs, s.now, margin);
    }
  }

  lemma NextIsCommits(s: State, a: Action, s': State, margin: nat)
    requires Inv(s, margin) && Next(s, a, s', margin)
    ensures AllEnabled(s.t, Commits(s, a)) && s'.t == ApplyAll(s.t, Commits(s, a))
  {
    CommitsAreEnabled(s, a, margin);
  }

  // ---- Who becomes active ------------------------------------------------------------

  ghost predicate Activates(cs: seq<Commit>, id: int) {
    exists k :: 0 <= k < |cs| && cs[k].Activate? && cs[k].id == id
  }

  lemma {:induction false} OnlyActivateActivates(t: Tables, cs: seq<Commit>, id: int)
    requires id !in t.active && id in ApplyAll(t, cs).active
    ensures Activates(cs, id)
  {
    if cs != [] {
      var init, c := cs[..|cs| - 1], cs[|cs| - 1];
      if id in ApplyAll(t, init).active {
        OnlyActivateActivates(t, init, id);
        var k :| 0 <= k < |init| && init[k].Activate? && init[k].id == id;
        assert cs[k] == init[k];
      } else {
        assert c.Activate? && c.id == id;
        assert cs[|cs| - 1] == c;
      }
    }
  }

  /** The verification that the action is, or in the middle of which it is a crash. */
  ghost predicate Verifies(a: Action, id: int, topic: string) {
    match a
    case Verify(i, p, _) => i == id && p == topic
    case Crash(a, _) => a.Verify? && a.id == id && a.topic == topic
    case _ => false
  }

  lemma ActionActivates(s: State, a: Action, margin: nat, id: int)
    requires Inv(s, margin) && Possible(s, a, margin) && Activates(Commits(s, a), id)
    ensures id in s.t.pending && id in s.t.subs && Verifies(a, id, s.t.subs[id].topic)
  {
    var k :| 0 <= k < |Commits(s, a)| && Commits(s, a)[k].Activate? && Commits(s, a)[k].id == id;
    match a {
      case Crash(b, n) =>
        assert Commits(s, b)[k] == Commits(s, a)[k];
        assert Activates(Commits(s, b), id);
        ActionActivates(s, b, margin, id);
      case PollTimer(renewals) => RenewalsAreEnabledIff(s.t, renewals, Due(s.t, s.now, margin));
      case _ =>
    }
  }

  /** A subscription becomes active only in a verification of it that names its own topic, while
      it is pending. */
  lemma BecomesActiveByVerification(states: seq<State>, actions: seq<Action>, margin: nat, k: nat, id: int)
    requires IsRun(states, actions, margin) && k < |actions|
    requires id !in states[k].t.active && id in states[k + 1].t.active
    ensures id in states[k].t.pending && id in states[k].t.subs
    ensures Verifies(actions[k], id, states[k].t.subs[id].topic)
  {
    EveryReachableStateIsGood(states, actions, margin, k);
    assert Next(states[k], actions[k], states[k + 1], margin);
    NextIsCommits(states[k], actions[k], states[k + 1], margin);
    OnlyActivateActivates(states[k].t, Commits(states[k], actions[k]), id);
    ActionActivates(states[k], actions[k], margin, id);
  }

  /** And every such verification activates it, until `now + lease` or the end of time. */
  lemma VerificationActivatesIff(s: State, id: int, topic: string, lease: nat, margin: nat)
    requires Inv(s, margin) && lease <= U64_MAX
    ensures
      var s' := After(s, Verify(id, topic, lease), margin);
      var accepted := id in s.t.pending && s.t.subs[id].topic == topic;
      && (id in s'.t.active <==> id in s.t.active || accepted)
      && (accepted ==> s'.t.active[id] == if s.now + lease <= I64_MAX then s.now + lease else I64_MAX)
      && (!accepted ==> s' == s)
  {
    if Confirms(s.t, id, topic) {
      if id in s.t.renewing {
        ConfirmedRenewalIsASwap(s.t, id, Expires(s.now, lease));
      } else {
        ConfirmedSubscriptionOnlyActivates(s.t, id, topic, Expires(s.now, lease));
      }
    }
  }

  /** The timer never spins: a poll that fires puts the next tick at least two seconds
      ahead, and renews exactly what is due and not being renewed. */
  lemma PollNeverSpins(states: seq<State>, actions: seq<Action>, margin: nat, k: nat)
    requires IsRun(states, actions, margin) && k < |actions| && actions[k].PollTimer?
    requires Fires(states[k].timer, states[k].now)
    ensures
      var s, s' := states[k], states[k + 1];
      && s'.timer.nextTick >= s.now + 2
      && s'.t.active == s.t.active
      && s'.t.renewing.Values == s.t.renewing.Values + Due(s.t, s.now, margin)
      && |s'.t.pending - s.t.pending| == |Due(s.t, s.now, margin)|
  {
    var s, s', cs := states[k], states[k + 1], actions[k].renewals;
    EveryReachableStateIsGood(states, actions, margin, k);
    assert Next(s, actions[k], states[k + 1], margin);
    PollRenewsExactlyDue(s.t, cs, s.now, margin);
    PendingGrows(s.t, s'.t, Due(s.t, s.now, margin), Ids(cs));
    NextTickAfter(s'.t, s.now, margin);
  }

  lemma PendingGrows(t: Tables, t': Tables, olds: set<int>, ids: set<int>)
    requires t.pending <= t.subs.Keys && AddsRenewals(t, t', olds, ids)
    ensures t'.pending - t.pending == ids
  {
  }

  lemma NextTickAfter(t: Tables, now: nat, margin: nat)
    requires forall e :: e in Unrenewed(t) ==> now + margin + 1 < e <= I64_MAX
    ensures Encode(NextTick(t, margin)) >= now + 2
    requires now + margin + 1 <= I64_MAX
  {
  }

  /** Verifying the same subscription again is answered "not found" and changes nothing. */
  lemma ReplayedVerificationChangesNothing(s: State, id: int, topic: string, l1: nat, l2: nat, margin: nat)
    requires Inv(s, margin) && l1 <= U64_MAX && l2 <= U64_MAX
    requires Confirms(s.t, id, topic)
    ensures
      var s' := After(s, Verify(id, topic, l1), margin);
      !Confirms(s'.t, id, topic) && After(s', Verify(id, topic, l2), margin) == s'
  {
    if id in s.t.renewing {
      ConfirmedRenewalIsASwap(s.t, id, Expires(s.now, l1));
    } else {
      ConfirmedSubscriptionOnlyActivates(s.t, id, topic, Expires(s.now, l1));
    }
  }

  ghost predicate Creates(c: Commit, id: int) {
    (c.Create? || c.Renew?) && c.id == id
  }

  /** And so for good: whatever is committed afterwards, a verification of `id` is refused
      until the id is drawn again for a new row. */
  lemma {:induction false} VerifiedIsRefusedForGood(t: Tables, cs: seq<Commit>, id: int, topic: string)
    requires WellFormed(t) && AllEnabled(t, cs)
    requires id in t.active && forall k :: 0 <= k < |cs| ==> !Creates(cs[k], id)
    ensures id in ApplyAll(t, cs).active || id !in ApplyAll(t, cs).subs
    ensures !Confirms(ApplyAll(t, cs), id, topic)
  {
    if cs != [] {
      var init, c := cs[..|cs| - 1], cs[|cs| - 1];
      VerifiedIsRefusedForGood(t, init, id, topic);
      EveryCrashPointIsWellFormed(t, init, |init|);
      assert init[..|init|] == init;
      CommitMovesForward(ApplyAll(t, init), c, id);
    }
  }

  /** The commits of the first `k` actions of a run. */
  function History(states: seq<State>, actions: seq<Action>, k: nat): seq<Commit>
    requires k <= |actions| < |states|
  {
    if k == 0 then [] else History(states, actions, k - 1) + Commits(states[k - 1], actions[k - 1])
  }

  /** Every run of the system is a run of commits, so that what holds at every crash point
      of every run of commits holds throughout. */
  lemma {:induction false} RunsAreCommits(states: seq<State>, actions: seq<Action>, margin: nat, k: nat)
    requires IsRun(states, actions, margin) && k <= |actions|
    ensures
      var h := History(states, actions, k);
      AllEnabled(states[0].t, h) && ApplyAll(states[0].t, h) == states[k].t
  {
    if k > 0 {
      RunsAreCommits(states, actions, margin, k - 1);
      EveryReachableStateIsGood(states, actions, margin, k - 1);
      var s, a := states[k - 1], actions[k - 1];
      assert Next(s, a, states[k - 1 + 1], margin);
      NextIsCommits(s, a, states[k], margin);
      ApplyConcat(states[0].t, History(states, actions, k - 1), Commits(s, a));
    }
  }
}
