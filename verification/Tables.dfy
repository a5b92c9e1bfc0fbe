/** The subscriber's SQLite tables, their constraints, and the transactions that the
    program commits against them. */
module Tables {
  import opened Basics

  datatype Row = Row(hub: string, topic: string, secret: string)

  /** `renewing` is keyed by its primary key, the `new` column, and holds the `old` column. */
  datatype Tables = Tables(
    subs: map<int, Row>,
    active: map<int, int>,
    pending: set<int>,
    renewing: map<int, int>)

  const EMPTY := Tables(map[], map[], {}, map[])

  // ---- Constraints -------------------------------------------------------------------

  ghost predicate Injective(m: map<int, int>) {
    forall n1, n2 :: n1 in m && n2 in m && m[n1] == m[n2] ==> n1 == n2
  }

  /** What the schema declares: foreign keys, and `UNIQUE` on `renewing.old`. */
  ghost predicate Constraints(t: Tables) {
    && t.active.Keys <= t.subs.Keys
    && t.pending <= t.subs.Keys
    && t.renewing.Keys <= t.pending
    && t.renewing.Values <= t.active.Keys
    && Injective(t.renewing)
  }

  /** What the program maintains on top of the schema. */
  ghost predicate WellFormed(t: Tables) {
    && Constraints(t)
    && t.subs.Keys == t.active.Keys + t.pending
    && t.active.Keys !! t.pending
    && (forall n :: n in t.renewing ==> SameFeed(t.subs[n], t.subs[t.renewing[n]]))
    && (forall id :: id in t.subs ==> 0 <= id <= I64_MAX)
  }

  ghost predicate SameFeed(a: Row, b: Row) {
    a.hub == b.hub && a.topic == b.topic
  }

  // ---- Statements --------------------------------------------------------------------

  datatype DbError = UniqueViolation | ForeignKeyViolation
  datatype DbResult = Done(t: Tables) | Failed(error: DbError)

  function InsertSubscription(t: Tables, id: int, row: Row): DbResult {
    if id in t.subs then Failed(UniqueViolation) else Done(t.(subs := t.subs[id := row]))
  }

  function InsertPending(t: Tables, id: int): DbResult {
    if id in t.pending then Failed(UniqueViolation)
    else if id !in t.subs then Failed(ForeignKeyViolation)
    else Done(t.(pending := t.pending + {id}))
  }

  function InsertActive(t: Tables, id: int, expires: int): DbResult {
    if id in t.active then Failed(UniqueViolation)
    else if id !in t.subs then Failed(ForeignKeyViolation)
    else Done(t.(active := t.active[id := expires]))
  }

  function InsertRenewing(t: Tables, old_: int, new_: int): DbResult {
    if new_ in t.renewing || old_ in t.renewing.Values then Failed(UniqueViolation)
    else if old_ !in t.active || new_ !in t.pending then Failed(ForeignKeyViolation)
    else Done(t.(renewing := t.renewing[new_ := old_]))
  }

  /** `ON DELETE CASCADE` from `active` into `renewing.old`. */
  function DeleteActive(t: Tables, ids: set<int>): Tables {
    t.(active := t.active - ids,
       renewing := map n | n in t.renewing && t.renewing[n] !in ids :: t.renewing[n])
  }

  /** `ON DELETE CASCADE` from `pending` into `renewing.new`. */
  function DeletePending(t: Tables, ids: set<int>): Tables {
    t.(pending := t.pending - ids, renewing := t.renewing - ids)
  }

  /** `ON DELETE CASCADE` from `subscriptions` into `active` and `pending`. */
  function DeleteSubscriptions(t: Tables, ids: set<int>): Tables {
    var t := DeletePending(DeleteActive(t, ids), ids);
    t.(subs := t.subs - ids)
  }

  /** What the cascades amount to: every trace of the ids goes, and nothing else. */
  lemma DeletesExactly(t: Tables, ids: set<int>)
    ensures
      var t' := DeleteSubscriptions(t, ids);
      && (forall id :: id in t'.subs <==> id in t.subs && id !in ids)
      && (forall id :: id in t'.active <==> id in t.active && id !in ids)
      && (forall id :: id in t'.pending <==> id in t.pending && id !in ids)
      && (forall n :: n in t'.renewing <==> n in t.renewing && n !in ids && t.renewing[n] !in ids)
      && (forall id :: id in t'.subs ==> t'.subs[id] == t.subs[id])
      && (forall id :: id in t'.active ==> t'.active[id] == t.active[id])
      && (forall n :: n in t'.renewing ==> t'.renewing[n] == t.renewing[n])
  {
  }

  // ---- Transactions ------------------------------------------------------------------

  /** One committed transaction, or one statement committed on its own. */
  datatype Commit =
    | Create(id: int, row: Row)
    | Renew(old_: int, id: int, row: Row)
    | Drop(id: int)
    | Activate(id: int, expires: int)
    | DropTopic(topic: string)
    | DropDangling

  function OfTopic(t: Tables, topic: string): set<int> {
    set id | id in t.subs && t.subs[id].topic == topic
  }

  function Created(t: Tables, id: int, row: Row): Tables {
    t.(subs := t.subs[id := row], pending := t.pending + {id})
  }

  function Apply(t: Tables, c: Commit): Tables {
    match c
    case Create(id, row) => Created(t, id, row)
    case Renew(o, id, row) =>
      var t := Created(t, id, row);
      t.(renewing := t.renewing[id := o])
    case Drop(id) => DeleteSubscriptions(t, {id})
    case Activate(id, expires) =>
      var t := DeletePending(t, {id});
      t.(active := t.active[id := expires])
    case DropTopic(topic) => DeleteSubscriptions(t, OfTopic(t, topic))
    case DropDangling => DeleteSubscriptions(t, t.subs.Keys - t.active.Keys)
  }

  /** The statements of a transaction, one after the other, as the database takes them. */
  function Execute(t: Tables, c: Commit): DbResult {
    match c
    case Create(id, row) => ExecuteCreation(t, id, row)
    case Renew(o, id, row) =>
      (match ExecuteCreation(t, id, row)
       case Failed(e) => Failed(e)
       case Done(t') => InsertRenewing(t', o, id))
    case Activate(id, expires) => InsertActive(DeletePending(t, {id}), id, expires)
    case Drop(id) => Done(DeleteSubscriptions(t, {id}))
    case DropTopic(topic) =>
      Done(DeleteSubscriptions(t, set id | id in t.subs && t.subs[id].topic == topic))
    case DropDangling => Done(DeleteSubscriptions(t, set id | id in t.subs && id !in t.active))
  }

  function ExecuteCreation(t: Tables, id: int, row: Row): DbResult {
    match InsertSubscription(t, id, row)
    case Failed(e) => Failed(e)
    case Done(t') => InsertPending(t', id)
  }

  /** When the program can commit `c`. */
  ghost predicate Enabled(t: Tables, c: Commit) {
    match c
    case Create(id, _) => id !in t.subs && 0 <= id <= I64_MAX
    case Renew(o, id, row) =>
      && id !in t.subs && 0 <= id <= I64_MAX
      && o in t.active && o !in t.renewing.Values
      && o in t.subs && SameFeed(row, t.subs[o])
    case Activate(id, expires) => id in t.pending
    case _ => true
  }

  function ApplyAll(t: Tables, cs: seq<Commit>): Tables {
    if cs == [] then t else Apply(ApplyAll(t, cs[..|cs| - 1]), cs[|cs| - 1])
  }

  ghost predicate AllEnabled(t: Tables, cs: seq<Commit>) {
    cs != [] ==>
      && AllEnabled(t, cs[..|cs| - 1])
      && Enabled(ApplyAll(t, cs[..|cs| - 1]), cs[|cs| - 1])
  }

  lemma ApplySnoc(t: Tables, cs: seq<Commit>, c: Commit)
    ensures ApplyAll(t, cs + [c]) == Apply(ApplyAll(t, cs), c)
    ensures AllEnabled(t, cs + [c]) <==> AllEnabled(t, cs) && Enabled(ApplyAll(t, cs), c)
  {
    assert (cs + [c])[..|cs|] == cs;
  }

  lemma ApplyOne(t: Tables, c: Commit)
    ensures ApplyAll(t, [c]) == Apply(t, c)
    ensures AllEnabled(t, [c]) <==> Enabled(t, c)
  {
    assert [c][..0] == [];
  }

  lemma ApplyTwo(t: Tables, c: Commit, d: Commit)
    ensures ApplyAll(t, [c, d]) == Apply(Apply(t, c), d)
    ensures AllEnabled(t, [c, d]) <==> Enabled(t, c) && Enabled(Apply(t, c), d)
  {
    ApplyOne(t, c);
    assert [c, d][..1] == [c];
  }

  lemma {:induction false} ApplyConcat(t: Tables, as_: seq<Commit>, bs: seq<Commit>)
    ensures ApplyAll(t, as_ + bs) == ApplyAll(ApplyAll(t, as_), bs)
    ensures AllEnabled(t, as_ + bs) <==> AllEnabled(t, as_) && AllEnabled(ApplyAll(t, as_), bs)
  {
    if bs == [] {
      assert as_ + bs == as_;
    } else {
      var init, c := bs[..|bs| - 1], bs[|bs| - 1];
      ApplyConcat(t, as_, init);
      assert as_ + bs == (as_ + init) + [c];
      ApplySnoc(t, as_ + init, c);
    }
  }

  /** What can be committed runs through without violating a constraint, and has the effect
      that is reasoned about. */
  lemma EnabledRunsThrough(t: Tables, c: Commit)
    requires WellFormed(t) && Enabled(t, c)
    ensures Execute(t, c) == Done(Apply(t, c))
  {
    if c.Renew? {
      assert forall n :: n in t.renewing ==> n in t.subs;
    }
    assert c.DropDangling? ==> t.subs.Keys - t.active.Keys == set id | id in t.subs && id !in t.active;
  }

  /** A creation fails on an id that is taken, and a renewal also on a subscription that is not
      active or is being renewed already. */
  lemma FailsIff(t: Tables, c: Commit)
    requires WellFormed(t)
    ensures c.Create? ==> (Execute(t, c).Failed? <==> c.id in t.subs)
    ensures c.Renew? ==>
      (Execute(t, c).Failed? <==> c.id in t.subs || c.old_ !in t.active || c.old_ in t.renewing.Values)
    ensures c.Activate? ==> (Execute(t, c).Failed? <==> c.id !in t.pending)
  {
  }

  /** Unsubscribing from a topic leaves exactly the rows of the other topics, as they were. */
  lemma DropTopicDrops(t: Tables, topic: string)
    ensures
      var t' := Apply(t, DropTopic(topic));
      && (forall id :: id in t'.subs <==> id in t.subs && t.subs[id].topic != topic)
      && (forall id :: id in t'.subs ==> t'.subs[id] == t.subs[id])
      && (forall id :: id in t'.active ==> id in t.active && t'.active[id] == t.active[id])
      && (WellFormed(t) ==> forall id :: id in t'.active <==> id in t.active && t.subs[id].topic != topic)
  {
  }

  /** Removing what dangles leaves exactly the active subscriptions, as they were. */
  lemma DropDanglingLeavesActive(t: Tables)
    requires WellFormed(t)
    ensures
      var t' := Apply(t, DropDangling);
      && t'.active == t.active && t'.pending == {} && t'.renewing == map[]
      && (forall id :: id in t'.subs <==> id in t.active)
      && (forall id :: id in t'.subs ==> t'.subs[id] == t.subs[id])
  {
    var t' := Apply(t, DropDangling);
    assert t'.active == t.active;
    assert forall n :: n in t'.renewing ==> n in t.pending && n !in t.active;
  }

  // ---- What every commit keeps -------------------------------------------------------

  lemma DeleteKeepsWellFormed(t: Tables, ids: set<int>)
    requires WellFormed(t)
    ensures WellFormed(DeleteSubscriptions(t, ids))
  {
    var t' := DeleteSubscriptions(t, ids);
    forall n | n in t'.renewing
      ensures n in t'.pending && t'.renewing[n] in t'.active && SameFeed(t'.subs[n], t'.subs[t'.renewing[n]])
    {
      assert t.renewing[n] in t.renewing.Values;
    }
  }

  lemma ApplyKeepsWellFormed(t: Tables, c: Commit)
    requires WellFormed(t) && Enabled(t, c)
    ensures WellFormed(Apply(t, c))
  {
    var t' := Apply(t, c);
    match c {
      case Create(id, row) =>
        assert forall n :: n in t.renewing ==> t.renewing[n] in t.renewing.Values;
      case Renew(o, id, row) =>
        assert forall n :: n in t.renewing ==> t.renewing[n] in t.renewing.Values;
        assert t'.renewing.Values <= t.renewing.Values + {o};
      case Drop(id) => DeleteKeepsWellFormed(t, {id});
      case Activate(id, expires) =>
        assert forall n :: n in t.renewing ==> t.renewing[n] in t.renewing.Values;
        assert t'.renewing.Values <= t.renewing.Values;
      case DropTopic(topic) => DeleteKeepsWellFormed(t, OfTopic(t, topic));
      case DropDangling => DeleteKeepsWellFormed(t, t.subs.Keys - t.active.Keys);
    }
  }

  /** Whatever was committed, the tables are well formed at the end and at every point
      where the process can be killed. */
  lemma {:induction false} EveryCrashPointIsWellFormed(t: Tables, cs: seq<Commit>, k: nat)
    requires WellFormed(t) && AllEnabled(t, cs) && k <= |cs|
    ensures AllEnabled(t, cs[..k]) && WellFormed(ApplyAll(t, cs[..k]))
  {
    if k == |cs| {
      assert cs[..k] == cs;
      if k > 0 {
        EveryCrashPointIsWellFormed(t, cs[..k - 1], k - 1);
        assert cs[..k - 1][..k - 1] == cs[..k - 1];
        ApplyKeepsWellFormed(ApplyAll(t, cs[..k - 1]), cs[k - 1]);
      }
    } else {
      var init := cs[..|cs| - 1];
      assert init[..k] == cs[..k];
      EveryCrashPointIsWellFormed(t, init, k);
    }
  }

  // ---- Life cycle --------------------------------------------------------------------

  datatype Phase = Absent | Pending | Active

  function PhaseOf(t: Tables, id: int): Phase {
    if id in t.active then Active else if id in t.pending then Pending else Absent
  }

  ghost predicate Move(p: Phase, q: Phase) {
    p == q || (p == Absent && q == Pending) || (p == Pending && q == Active) || q == Absent
  }

  /** Everything recorded about `id` other than its phase. */
  ghost predicate Frozen(t: Tables, t': Tables, id: int) {
    && (id in t.subs && id in t'.subs ==> t'.subs[id] == t.subs[id])
    && (id in t.active && id in t'.active ==> t'.active[id] == t.active[id])
  }

  lemma CommitMovesForward(t: Tables, c: Commit, id: int)
    requires WellFormed(t) && Enabled(t, c)
    ensures Move(PhaseOf(t, id), PhaseOf(Apply(t, c), id))
    ensures Frozen(t, Apply(t, c), id)
  {
  }

  /** While a row lives, its hub, topic, secret and expiry never change, and its phase
      never goes back from active to pending, over any run of commits. */
  lemma {:induction false} LiveRowsAreFrozen(t: Tables, cs: seq<Commit>, id: int)
    requires WellFormed(t) && AllEnabled(t, cs)
    requires forall k :: 0 <= k <= |cs| ==> id in ApplyAll(t, cs[..k]).subs
    ensures id in t.subs && id in ApplyAll(t, cs).subs
    ensures Frozen(t, ApplyAll(t, cs), id)
    ensures PhaseOf(t, id) == Active ==> PhaseOf(ApplyAll(t, cs), id) == Active
  {
    assert cs[..|cs|] == cs && cs[..0] == [];
    assert id in ApplyAll(t, cs[..0]).subs && id in ApplyAll(t, cs[..|cs|]).subs;
    if cs != [] {
      var init, c := cs[..|cs| - 1], cs[|cs| - 1];
      forall k | 0 <= k <= |init|
        ensures id in ApplyAll(t, init[..k]).subs
      {
        assert init[..k] == cs[..k];
      }
      LiveRowsAreFrozen(t, init, id);
      EveryCrashPointIsWellFormed(t, init, |init|);
      assert init[..|init|] == init;
      ApplyKeepsWellFormed(ApplyAll(t, init), c);
      CommitMovesForward(ApplyAll(t, init), c, id);
    }
  }
}
