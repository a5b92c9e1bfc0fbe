/** The subscriber's service and its timer task as objects: each handler is a method that
    changes the tables statement by statement, and is proved to make the step of the
    transition system in `Protocol` that bears its name. */
module Subscriber {
  import opened Basics
  import opened Tables
  import opened RenewalTimer
  import opened Protocol
  import opened CallbackId

  /** The form posted to a hub. */
  datatype Request =
    | SubscribeTo(hub: string, callback: string, topic: string, secret: string)
    | UnsubscribeFrom(hub: string, callback: string, topic: string)

  /** The query of a hub's verification request; `Malformed` does not parse. */
  datatype Query =
    | VerifySubscribe(topic: string, challenge: string, lease: nat)
    | VerifyUnsubscribe(topic: string, challenge: string)
    | Malformed

  datatype Response = Confirmed(challenge: string) | Status404 | Status400

  /** `ids` lists each member of `s` once. */
  ghost predicate Enumerates(ids: seq<int>, s: set<int>) {
    |ids| == |s| && forall id :: id in ids <==> id in s
  }

  lemma EnumeratesOneMore(ids: seq<int>, s: set<int>, id: int)
    requires Enumerates(ids, s) && id !in s
    ensures Enumerates(ids + [id], s + {id})
  {
  }

  /** Whatever query a hub appends to the callback of the request, it reaches `id`. */
  ghost predicate Reaches(request: Request, prefix: string, id: int) {
    forall query: string :: Resolved(prefix, PathOf(request.callback + "?" + query)) == Id(id)
  }

  lemma CallbackReaches(request: Request, prefix: string, id: int)
    requires '?' !in prefix && 0 <= id <= I64_MAX && request.callback == MakeCallback(prefix, id)
    ensures Reaches(request, prefix, id)
  {
    forall query: string
      ensures Resolved(prefix, PathOf(request.callback + "?" + query)) == Id(id)
    {
      RequestReaches(prefix, id, query);
    }
  }

  const SECRET_LEN := 32

  class Service {
    const callback: string
    const renewalMargin: nat
    const handle: Handle
    var db: Tables
    var sent: seq<Request>
    /** What the random number generator is going to yield. */
    var draws: seq<nat>
    /** What has been committed: the process may be killed after any of them. */
    ghost var log: seq<Commit>

    ghost predicate Valid()
      reads this
    {
      WellFormed(db) && (forall d :: d in draws ==> d <= U64_MAX)
    }

    constructor (callback: string, margin: nat, handle: Handle, db: Tables, draws: seq<nat>)
      requires WellFormed(db) && forall d :: d in draws ==> d <= U64_MAX
      ensures Valid() && this.handle == handle && this.callback == callback && renewalMargin == margin
      ensures this.db == db && this.draws == draws && sent == []
    {
      this.callback, renewalMargin, this.handle := callback, margin, handle;
      this.db, this.draws, sent, log := db, draws, [], [];
    }

    /** Of `before`, every draw that is gone is taken as an id: none was wasted. */
    ghost predicate Spent(before: seq<nat>)
      reads this
    {
      forall d :: d in before ==> d in draws || d / 2 in db.subs
    }

    function RefreshTime(expires: nat): nat {
      WrappingSub(expires, renewalMargin)
    }

    ghost method Record(t: Tables, c: Commit)
      requires WellFormed(t) && Enabled(t, c) && db == Apply(t, c)
      modifies `log
      ensures log == old(log) + [c] && WellFormed(db)
    {
      ApplyKeepsWellFormed(t, c);
      log := log + [c];
    }

    method GenSecret() returns (secret: string)
      ensures |secret| == SECRET_LEN == 32
    {
      assert |Zeroes(24)| == 24;
      var rand: seq<Byte> :| |rand| == SECRET_LEN * 6 / 8;
      secret := EncodeBase64(rand);
      DecodeEncodeBase64(rand);
    }

    /** Draws ids until one is free. `None`: the draws ran out with the loop still going,
        and the open transaction leaves nothing behind. */
    method CreateSubscription(hub: string, topic: string) returns (r: Option<(int, string)>)
      requires Valid()
      modifies `db, `draws
      ensures forall d :: d in draws ==> d in old(draws)
      ensures r == None ==> draws == [] && db == old(db)
      ensures Spent(old(draws))
      ensures r.Some? ==>
        && db == Created(old(db), r.value.0, Row(hub, topic, r.value.1))
        && Enabled(old(db), Create(r.value.0, Row(hub, topic, r.value.1)))
        && |r.value.1| == SECRET_LEN
        && (exists n :: 0 < n <= |old(draws)| && draws == old(draws)[n..] && r.value.0 == old(draws)[n - 1] / 2
              && forall k :: 0 <= k < n - 1 ==> old(draws)[k] / 2 in old(db).subs)
    {
      var secret := GenSecret();
      var row := Row(hub, topic, secret);
      var n := 0;
      while draws != []
        invariant 0 <= n <= |old(draws)| && draws == old(draws)[n..]
        invariant db == old(db)
        invariant forall k :: 0 <= k < n ==> old(draws)[k] / 2 in db.subs
        invariant Spent(old(draws))
        decreases |draws|
      {
        var id := draws[0] / 2;
        assert draws[0] in old(draws);
        draws, n := draws[1..], n + 1;
        match InsertSubscription(db, id, row) {
          case Done(t) =>
            db := t;
            var inserted := InsertPending(db, id);
            assert inserted.Done?;
            db := inserted.t;
            return Some((id, secret));
          case Failed(_) => // retry
        }
      }
      return None;
    }

    method Subscribe(hub: string, topic: string) returns (done: bool, ghost id: int, ghost row: Row)
      requires Valid()
      modifies `db, `draws, `sent, `log
      ensures Valid()
      ensures !done ==> draws == [] && db == old(db) && sent == old(sent) && log == old(log)
      ensures Spent(old(draws))
      ensures done ==>
        && row.hub == hub && row.topic == topic
        && Enabled(old(db), Create(id, row))
        && log == old(log) + [Create(id, row)] && db == Apply(old(db), Create(id, row))
        && sent == old(sent) + [SubscribeTo(hub, MakeCallback(callback, id), topic, row.secret)]
      ensures done ==>
        && id !in old(db).subs && db.subs == old(db).subs[id := row]
        && db.pending == old(db).pending + {id}
        && db.active == old(db).active && db.renewing == old(db).renewing
        && ('?' !in callback ==> Reaches(sent[|sent| - 1], callback, id))
    {
      var r := CreateSubscription(hub, topic);
      if r == None {
        return false, 0, Row(hub, topic, "");
      }
      id, row := r.value.0, Row(hub, topic, r.value.1);
      Record(old(db), Create(id, row));
      var request := SubscribeTo(hub, MakeCallback(callback, r.value.0), topic, r.value.1);
      if '?' !in callback {
        CallbackReaches(request, callback, id);
      }
      sent := sent + [request];
      done := true;
    }

    /** The request subscribes with the pending row `id`: to its hub and topic, with its secret,
        and with a callback that leads back to it. */
    ghost predicate IsFor(request: Request, id: int)
      reads this
    {
      && request.SubscribeTo? && id in db.pending && id in db.subs
      && Row(request.hub, request.topic, request.secret) == db.subs[id]
      && ('?' !in callback ==> Reaches(request, callback, id))
    }

    /** The transaction is unwrapped: it must not fail, and it does not. */
    method Renew(old_: int, hub: string, topic: string) returns (done: bool, ghost c: Commit)
      requires Valid()
      requires old_ in db.active && old_ !in db.renewing.Values && SameFeed(db.subs[old_], Row(hub, topic, ""))
      modifies `db, `draws, `sent, `log
      ensures Valid()
      ensures !done ==> draws == [] && db == old(db) && sent == old(sent) && log == old(log)
      ensures Spent(old(draws))
      ensures done ==>
        && c.Renew? && c.old_ == old_ && c.row.hub == hub && c.row.topic == topic
        && Enabled(old(db), c)
        && log == old(log) + [c] && db == Apply(old(db), c)
        && sent == old(sent) + [RenewalRequest(c)]
      ensures done ==>
        && c.id !in old(db).subs && db.subs == old(db).subs[c.id := c.row]
        && db.pending == old(db).pending + {c.id}
        && db.active == old(db).active && db.renewing == old(db).renewing[c.id := old_]
        && IsFor(sent[|sent| - 1], c.id)
    {
      var r := CreateSubscription(hub, topic);
      if r == None {
        return false, DropDangling;
      }
      var new_, secret := r.value.0, r.value.1;
      assert forall n :: n in db.renewing ==> db.renewing[n] in db.renewing.Values;
      var inserted := InsertRenewing(db, old_, new_);
      assert inserted.Done?;
      db := inserted.t;
      c := Commit.Renew(old_, new_, Row(hub, topic, secret));
      Record(old(db), c);
      var request := SubscribeTo(hub, MakeCallback(callback, new_), topic, secret);
      if '?' !in callback {
        CallbackReaches(request, callback, new_);
      }
      sent := sent + [request];
      done := true;
    }

    function RenewalRequest(c: Commit): Request
      requires c.Renew?
    {
      SubscribeTo(c.row.hub, MakeCallback(callback, c.id), c.row.topic, c.row.secret)
    }

    function RenewalRequests(cs: seq<Commit>): seq<Request>
      requires forall k :: 0 <= k < |cs| ==> cs[k].Renew?
    {
      seq(|cs|, k requires 0 <= k < |cs| => RenewalRequest(cs[k]))
    }

    /** `cs`, renewals all, is what has happened since the tables were `t0`, the requests
        sent `s0` and the log `l0`. */
    ghost predicate HasRenewed(t0: Tables, s0: seq<Request>, l0: seq<Commit>, cs: seq<Commit>)
      reads this
    {
      && Valid() && AllEnabled(t0, cs) && AllRenew(cs)
      && db == ApplyAll(t0, cs) && log == l0 + cs && sent == s0 + RenewalRequests(cs)
    }

    method RenewNext(id: int, ghost t0: Tables, ghost s0: seq<Request>, ghost l0: seq<Commit>, ghost cs: seq<Commit>)
      returns (done: bool, ghost c: Commit)
      requires HasRenewed(t0, s0, l0, cs)
      requires id in db.active && id !in db.renewing.Values
      modifies `db, `draws, `sent, `log
      ensures done ==> HasRenewed(t0, s0, l0, cs + [c]) && Olds(cs + [c]) == Olds(cs) + {id}
      ensures !done ==> draws == [] && HasRenewed(t0, s0, l0, cs)
      ensures Spent(old(draws)) && old(db).subs.Keys <= db.subs.Keys
    {
      done, c := Renew(id, db.subs[id].hub, db.subs[id].topic);
      if done {
        RenewalsSnoc(t0, cs, c);
        assert RenewalRequests(cs + [c]) == RenewalRequests(cs) + [RenewalRequest(c)];
        Associative(l0, cs, [c]);
        Associative(s0, RenewalRequests(cs), [RenewalRequest(c)]);
      }
    }

    /** After the first `n` requests there is one for each of the renewals `cs`, in order, to
        subscribe with the new row that `renewing` pairs with the old one. */
    ghost predicate SentFor(n: nat, cs: seq<Commit>)
      reads this
    {
      && |sent| == n + |cs|
      && forall k: nat :: k < |cs| ==>
        && cs[k].Renew? && IsFor(sent[n + k], cs[k].id)
        && cs[k].id in db.renewing && db.renewing[cs[k].id] == cs[k].old_
    }

    lemma RequestsAreForRows(t0: Tables, s0: seq<Request>, l0: seq<Commit>, cs: seq<Commit>)
      requires t0.renewing.Keys <= t0.subs.Keys && HasRenewed(t0, s0, l0, cs)
      ensures SentFor(|s0|, cs)
    {
      forall k: nat | k < |cs|
        ensures IsFor(sent[|s0| + k], cs[k].id)
        ensures cs[k].id in db.renewing && db.renewing[cs[k].id] == cs[k].old_
      {
        RenewedRows(t0, cs, k);
        assert sent[|s0| + k] == RenewalRequest(cs[k]);
        if '?' !in callback {
          CallbackReaches(RenewalRequest(cs[k]), callback, cs[k].id);
        }
      }
    }

    /** The loop over what the query has found. Not `done`: the draws ran out in the middle, with
        every one of them taken. */
    method RenewEach(expiring: set<int>) returns (done: bool, ghost cs: seq<Commit>)
      requires Valid() && expiring <= db.active.Keys && expiring !! db.renewing.Values
      modifies `db, `draws, `sent, `log
      ensures HasRenewed(old(db), old(sent), old(log), cs)
      ensures RenewsSome(old(db), cs, expiring)
      ensures done <==> Renewals(old(db), cs, expiring)
      ensures !done ==> draws == [] && forall d :: d in old(draws) ==> d / 2 in db.subs
    {
      cs := [];
      var todo := expiring;
      while todo != {}
        invariant HasRenewed(old(db), old(sent), old(log), cs)
        invariant todo <= expiring && Olds(cs) == expiring - todo
        invariant Spent(old(draws))
        decreases |todo|
      {
        EmptyOrNot(todo);
        var id :| id in todo;
        StillUnrenewed(old(db), cs, id);
        var renewed, c := RenewNext(id, old(db), old(sent), old(log), cs);
        if !renewed {
          RenewalsAreEnabledIff(old(db), cs, expiring);
          return false, cs;
        }
        cs, todo := cs + [c], todo - {id};
      }
      RenewalsAreEnabledIff(old(db), cs, expiring);
      done := true;
    }

    /** Renews every active subscription that expires within the margin and a second and is
        not being renewed yet, with one request for each. */
    method RenewSubscriptions(now: nat) returns (done: bool, ghost cs: seq<Commit>)
      requires Valid()
      requires now + renewalMargin + 1 <= I64_MAX
      modifies `db, `draws, `sent, `log
      ensures HasRenewed(old(db), old(sent), old(log), cs)
      ensures RenewsSome(old(db), cs, Due(old(db), now, renewalMargin))
      ensures done <==> Renewals(old(db), cs, Due(old(db), now, renewalMargin))
      ensures !done ==> draws == [] && forall d :: d in old(draws) ==> d / 2 in db.subs
      ensures done ==> forall id :: id in db.renewing.Values <==>
        || id in old(db).renewing.Values
        || (id in old(db).active && old(db).active[id] <= now + renewalMargin + 1)
      ensures db.active == old(db).active && SentFor(|old(sent)|, cs)
    {
      done, cs := RenewEach(Due(db, now, renewalMargin));
      RequestsAreForRows(old(db), old(sent), old(log), cs);
      RenewalsKeepActive(old(db), cs);
      if done {
        RenewedIff(old(db), cs, now, renewalMargin);
      }
    }

    /** Deletes the row before asking the hub to unsubscribe. */
    method Unsubscribe(id: int, hub: string, topic: string)
      requires Valid()
      modifies `db, `sent, `log
      ensures Valid()
      ensures log == old(log) + [Drop(id)] && db == Apply(old(db), Drop(id))
      ensures sent == old(sent) + [UnsubscribeFrom(hub, MakeCallback(callback, id), topic)]
      ensures forall i :: i in db.subs <==> i in old(db).subs && i != id
      ensures 0 <= id <= I64_MAX && '?' !in callback ==> Reaches(sent[|sent| - 1], callback, id)
    {
      db := DeleteSubscriptions(db, {id});
      Record(old(db), Drop(id));
      if 0 <= id <= I64_MAX && '?' !in callback {
        CallbackReaches(UnsubscribeFrom(hub, MakeCallback(callback, id), topic), callback, id);
      }
      sent := sent + [UnsubscribeFrom(hub, MakeCallback(callback, id), topic)];
    }

    /** `requests` are those to unsubscribe from the rows `ids`, in order. */
    ghost predicate Farewells(subs: map<int, Row>, ids: seq<int>, topic: string, requests: seq<Request>) {
      |requests| == |ids| && forall k :: 0 <= k < |ids| ==>
        && ids[k] in subs
        && requests[k] == UnsubscribeFrom(subs[ids[k]].hub, MakeCallback(callback, ids[k]), topic)
    }

    lemma FarewellsOneMore(subs: map<int, Row>, ids: seq<int>, topic: string, requests: seq<Request>, id: int)
      requires Farewells(subs, ids, topic, requests) && id in subs
      ensures
        var request := UnsubscribeFrom(subs[id].hub, MakeCallback(callback, id), topic);
        Farewells(subs, ids + [id], topic, requests + [request])
    {
    }

    /** One request for each of `rows`, in some order. */
    method UnsubscribeRequests(subs: map<int, Row>, rows: set<int>, topic: string)
      returns (requests: seq<Request>, ghost ids: seq<int>)
      requires rows <= subs.Keys
      ensures Enumerates(ids, rows)
      ensures Farewells(subs, ids, topic, requests)
    {
      requests, ids := [], [];
      var todo := rows;
      while todo != {}
        invariant todo <= rows && Enumerates(ids, rows - todo) && Farewells(subs, ids, topic, requests)
        decreases |todo|
      {
        EmptyOrNot(todo);
        var id :| id in todo;
        FarewellsOneMore(subs, ids, topic, requests, id);
        requests := requests + [UnsubscribeFrom(subs[id].hub, MakeCallback(callback, id), topic)];
        EnumeratesOneMore(ids, rows - todo, id);
        assert rows - todo + {id} == rows - (todo - {id});
        ids, todo := ids + [id], todo - {id};
      }
      assert rows - todo == rows;
    }

    method UnsubscribeAll(topic: string) returns (requests: seq<Request>, ghost ids: seq<int>)
      requires Valid()
      modifies `db, `log
      ensures Valid()
      ensures log == old(log) + [DropTopic(topic)] && db == Apply(old(db), DropTopic(topic))
      ensures Enumerates(ids, OfTopic(old(db), topic)) && Farewells(old(db).subs, ids, topic, requests)
      ensures forall id :: id in db.subs <==> id in old(db).subs && old(db).subs[id].topic != topic
      ensures forall id :: id in db.subs ==> db.subs[id] == old(db).subs[id]
      ensures |requests| == |ids| && forall id :: id in ids <==> id in old(db).subs && old(db).subs[id].topic == topic
      ensures forall k: nat :: k < |ids| ==>
        && requests[k].UnsubscribeFrom? && requests[k].topic == topic
        && ids[k] in old(db).subs && requests[k].hub == old(db).subs[ids[k]].hub
      ensures '?' !in callback ==> forall k: nat :: k < |ids| ==> Reaches(requests[k], callback, ids[k])
    {
      var rows := OfTopic(db, topic);
      requests, ids := UnsubscribeRequests(db.subs, rows, topic);
      db := DeleteSubscriptions(db, rows);
      Record(old(db), DropTopic(topic));
      DropTopicDrops(old(db), topic);
      if '?' !in callback {
        forall k: nat | k < |ids|
          ensures Reaches(requests[k], callback, ids[k])
        {
          CallbackReaches(requests[k], callback, ids[k]);
        }
      }
    }

    method RemoveDanglingSubscriptions()
      requires Valid()
      modifies `db, `log
      ensures Valid()
      ensures log == old(log) + [DropDangling] && db == Apply(old(db), DropDangling)
      ensures db.active == old(db).active && db.pending == {} && db.renewing == map[]
      ensures forall id :: id in db.subs <==> id in old(db).active
      ensures forall id :: id in db.subs ==> db.subs[id] == old(db).subs[id]
    {
      var dangling := db.subs.Keys - db.active.Keys;
      db := DeleteSubscriptions(db, dangling);
      Record(old(db), DropDangling);
      DropDanglingLeavesActive(old(db));
    }

    /** The request that a confirmed renewal sends: to unsubscribe the old row, from its own
        hub and topic. */
    function Farewell(t: Tables, id: int): seq<Request> {
      if id in t.renewing && t.renewing[id] in t.subs then
        var o := t.renewing[id];
        [UnsubscribeFrom(t.subs[o].hub, MakeCallback(callback, o), t.subs[o].topic)]
      else []
    }

    /** What a verification request for `id` is answered. */
    function Answer(t: Tables, id: int, query: Query): Response {
      match query
      case VerifySubscribe(topic, challenge, _) => if Confirms(t, id, topic) then Confirmed(challenge) else Status404
      case VerifyUnsubscribe(topic, challenge) =>
        if id in t.subs && t.subs[id].topic == topic then Status404 else Confirmed(challenge)
      case Malformed => Status404
    }

    /** A subscription is confirmed exactly while it is pending and under its own topic, an
        unsubscription exactly if there is no such row. */
    lemma AnswerMeans(t: Tables, id: int, query: Query)
      requires WellFormed(t)
      ensures query.VerifySubscribe? ==>
        Answer(t, id, query) ==
        if id in t.pending && t.subs[id].topic == query.topic then Confirmed(query.challenge) else Status404
      ensures query.VerifyUnsubscribe? ==>
        Answer(t, id, query) ==
        if id in t.subs && t.subs[id].topic == query.topic then Status404 else Confirmed(query.challenge)
      ensures query.Malformed? ==> Answer(t, id, query) == Status404
    {
    }

    /** `id` is active until `expires`, in place of the subscription that it renews, if any, and
        no other subscription becomes active or ceases to be. */
    ghost predicate TakesOver(t: Tables, t': Tables, id: int, expires: int) {
      && id in t'.active && t'.active[id] == expires
      && forall i :: i in t'.active <==>
           i == id || (i in t.active && !(id in t.renewing && i == t.renewing[id]))
    }

    /** The hub of the old row, if there is one, is asked to drop its topic at its callback. */
    ghost predicate SaysFarewell(t: Tables, id: int, before: seq<Request>, after: seq<Request>) {
      if id in t.renewing then
        var o := t.renewing[id];
        && o in t.subs && |after| == |before| + 1 && after[..|before|] == before
        && after[|before|].UnsubscribeFrom?
        && after[|before|].hub == t.subs[o].hub && after[|before|].topic == t.subs[o].topic
        && ('?' !in callback ==> Reaches(after[|before|], callback, o))
      else after == before
    }

    /** The next tick is the earlier of the one before and the renewal time. */
    ghost predicate IsHastened(before: nat, after: nat, expires: int) {
      renewalMargin <= expires <= I64_MAX ==>
        after == if before <= expires - renewalMargin then before else expires - renewalMargin
    }

    lemma Accepted(t: Tables, id: int, topic: string, expires: int, before: seq<Request>)
      requires WellFormed(t) && Confirms(t, id, topic)
      ensures TakesOver(t, ApplyAll(t, Activation(t, id, expires)), id, expires)
      ensures SaysFarewell(t, id, before, before + Farewell(t, id))
    {
      if id in t.renewing {
        ConfirmedRenewalIsASwap(t, id, expires);
        if '?' !in callback {
          CallbackReaches(Farewell(t, id)[0], callback, t.renewing[id]);
        }
      } else {
        ConfirmedSubscriptionOnlyActivates(t, id, topic, expires);
      }
    }

    /** What is done about a verification that is accepted. */
    method AcceptSubscription(id: int, topic: string, lease: nat, now: nat)
      requires Valid() && Confirms(db, id, topic) && lease <= U64_MAX
      modifies `db, `sent, `log, handle
      ensures Valid()
      ensures
        var e := Expires(now, lease);
        && log == old(log) + Activation(old(db), id, e)
        && db == ApplyAll(old(db), Activation(old(db), id, e))
        && sent == old(sent) + Farewell(old(db), id)
        && Timer(handle.nextTick, None, handle.woken) ==
           Hastened(Timer(old(handle.nextTick), None, old(handle.woken)), RefreshTime(e))
    {
      var expires := Expires(now, lease);
      handle.Hasten(RefreshTime(expires));

      ActivationIsEnabled(db, id, topic, expires);
      if id in db.renewing {
        var oldId := db.renewing[id];
        assert oldId in db.renewing.Values;
        ActivationDropsThenActivates(db, id, expires);
        ConfirmedRenewalIsASwap(db, id, expires);
        var hub := db.subs[id].hub;
        Unsubscribe(oldId, hub, topic);
      } else {
        ConfirmedSubscriptionOnlyActivates(db, id, topic, expires);
      }

      ghost var t := db;
      var pendingGone := DeletePending(db, {id});
      var inserted := InsertActive(pendingGone, id, expires);
      assert inserted.Done?;
      db := inserted.t;
      Record(t, Activate(id, expires));
    }

    method VerifyIntent(id: int, query: Query, now: nat) returns (response: Response)
      requires Valid()
      requires query.VerifySubscribe? ==> query.lease <= U64_MAX
      modifies `db, `sent, `log, handle
      ensures Valid()
      ensures query.VerifySubscribe? && Confirms(old(db), id, query.topic) ==>
        var e := Expires(now, query.lease);
        && response == Confirmed(query.challenge)
        && log == old(log) + Activation(old(db), id, e)
        && db == ApplyAll(old(db), Activation(old(db), id, e))
        && sent == old(sent) + Farewell(old(db), id)
        && Timer(handle.nextTick, None, handle.woken) ==
           Hastened(Timer(old(handle.nextTick), None, old(handle.woken)), RefreshTime(e))
      ensures !(query.VerifySubscribe? && Confirms(old(db), id, query.topic)) ==>
        && db == old(db) && sent == old(sent) && log == old(log)
        && handle.nextTick == old(handle.nextTick) && handle.woken == old(handle.woken)
      ensures query.VerifyUnsubscribe? ==>
        (response == Confirmed(query.challenge) <==> !(id in db.subs && db.subs[id].topic == query.topic))
      ensures response == Status404 <==>
        || query == Malformed
        || (query.VerifySubscribe? && !Confirms(old(db), id, query.topic))
        || (query.VerifyUnsubscribe? && id in db.subs && db.subs[id].topic == query.topic)
      ensures response == Answer(old(db), id, query)
      ensures query.VerifySubscribe? ==>
        if id in old(db).pending && old(db).subs[id].topic == query.topic then
          && response == Confirmed(query.challenge)
          && TakesOver(old(db), db, id, if now + query.lease <= I64_MAX then now + query.lease else I64_MAX)
          && SaysFarewell(old(db), id, old(sent), sent)
          && IsHastened(old(handle.nextTick), handle.nextTick, db.active[id])
        else
          response == Status404 && db == old(db) && sent == old(sent)
    {
      match query
      case VerifySubscribe(topic, challenge, lease) =>
        ConfirmsIff(db, id, topic);
        if !(id in db.subs && db.subs[id].topic == topic && id !in db.active) {
          return Status404;
        }
        AcceptSubscription(id, topic, lease, now);
        Accepted(old(db), id, topic, Expires(now, lease), old(sent));
        return Confirmed(challenge);
      case VerifyUnsubscribe(topic, challenge) =>
        if id in db.subs && db.subs[id].topic == topic {
          return Status404;
        }
        return Confirmed(challenge);
      case Malformed =>
        return Status404;
    }
  }

  /** The service together with the scheduler that renews its subscriptions. */
  class Server {
    const service: Service
    const scheduler: Scheduler

    ghost predicate Valid()
      reads this, service, scheduler, service.handle
    {
      scheduler.handle == service.handle && service.Valid()
    }

    ghost function View(now: nat): State
      reads this, service, scheduler, scheduler.handle
    {
      State(service.db, scheduler.View(), now)
    }

    /** `Subscriber::new`: the timer starts at the earliest expiry less the margin, read
        before dangling subscriptions are removed. */
    constructor (pq: string, margin: nat, db: Tables, draws: seq<nat>)
      requires pq != [] && WellFormed(db) && forall d :: d in draws ==> d <= U64_MAX
      ensures Valid() && service.renewalMargin == margin && service.callback == PrepareCallbackPrefix(pq)
      ensures forall now :: View(now) == State(db, Spawned(FirstTick(db, margin)), now)
      ensures fresh(service) && fresh(scheduler) && fresh(service.handle)
    {
      var handle := new Handle(FirstTick(db, margin));
      service := new Service(PrepareCallbackPrefix(pq), margin, handle, db, draws);
      scheduler := new Scheduler(handle);
    }

    /** What follows `new` at startup: together they begin a run of the system. */
    method RemoveDanglingSubscriptions(ghost now: nat)
      requires Valid()
      modifies service
      ensures Valid()
      ensures View(now) == old(View(now)).(t := Apply(old(service.db), DropDangling))
      ensures
        var before, margin := old(service.db), service.renewalMargin;
        old(View(now)) == State(before, Spawned(FirstTick(before, margin)), now) ==>
          && View(now) == Started(before, now, margin)
          && (margin <= I64_MAX && margin <= now && Leftover(before, margin) ==> Inv(View(now), margin))
    {
      ghost var before, margin := service.db, service.renewalMargin;
      service.RemoveDanglingSubscriptions();
      if View(now) == Started(before, now, margin) {
        if margin <= I64_MAX && margin <= now && Leftover(before, margin) {
          StartupIsGood(View(now), margin);
        }
      }
    }

    /** One `poll` of the scheduler, with the callback that `Subscriber::new` gave it. */
    method Poll(now: nat) returns (done: bool, ghost renewals: seq<Commit>)
      requires Valid() && Inv(View(now), service.renewalMargin)
      requires now + service.renewalMargin + 1 <= I64_MAX
      modifies service, scheduler, service.handle
      ensures Valid()
      ensures done ==>
        && Next(old(View(now)), PollTimer(renewals), View(now), service.renewalMargin)
        && Inv(View(now), service.renewalMargin)
      ensures AllRenew(renewals) && service.sent == old(service.sent) + service.RenewalRequests(renewals)
      ensures service.db.active == old(service.db).active && service.SentFor(|old(service.sent)|, renewals)
      ensures done ==> forall id :: id in service.db.renewing.Values <==>
        || id in old(service.db).renewing.Values
        || (&& old(service.handle.nextTick) != NEVER && old(service.handle.nextTick) <= now
            && id in old(service.db).active && old(service.db).active[id] <= now + service.renewalMargin + 1)
      ensures !done ==>
        && service.draws == [] && (forall d :: d in old(service.draws) ==> d / 2 in service.db.subs)
        && Fires(old(scheduler.View()), now)
        && RenewsSome(old(service.db), renewals, Due(old(service.db), now, service.renewalMargin))
        && service.db == ApplyAll(old(service.db), renewals)
    {
      ghost var before := View(now);
      FiresExactlyWhenDue(before.timer, now);
      var ready := scheduler.PollDelay(now);
      if !ready {
        StepKeepsInv(before, PollTimer([]), service.renewalMargin);
        return true, [];
      }
      done, renewals := service.RenewSubscriptions(now);
      if done {
        var tick := NextTick(service.db, service.renewalMargin);
        scheduler.Reset(tick);
        StepKeepsInv(before, PollTimer(renewals), service.renewalMargin);
      }
    }

    method Subscribe(hub: string, topic: string, ghost now: nat)
      returns (done: bool, ghost id: int, ghost row: Row)
      requires Valid() && Inv(View(now), service.renewalMargin)
      modifies service
      ensures Valid()
      ensures done ==>
        && row.hub == hub && row.topic == topic
        && Next(old(View(now)), Action.Subscribe(id, row), View(now), service.renewalMargin)
      ensures !done ==> service.draws == [] && View(now) == old(View(now))
      ensures service.sent == old(service.sent) +
        if done then [SubscribeTo(hub, MakeCallback(service.callback, id), topic, row.secret)] else []
      ensures done ==>
        && id !in old(service.db).subs && service.db.subs == old(service.db).subs[id := row]
        && service.db.pending == old(service.db).pending + {id} && service.db.active == old(service.db).active
        && ('?' !in service.callback ==> Reaches(service.sent[|service.sent| - 1], service.callback, id))
      ensures Inv(View(now), service.renewalMargin)
    {
      ghost var before := View(now);
      done, id, row := service.Subscribe(hub, topic);
      if done {
        ApplyOne(before.t, Create(id, row));
        StepKeepsInv(before, Action.Subscribe(id, row), service.renewalMargin);
      }
    }

    method UnsubscribeAll(topic: string, ghost now: nat) returns (requests: seq<Request>, ghost ids: seq<int>)
      requires Valid() && Inv(View(now), service.renewalMargin)
      modifies service
      ensures Valid()
      ensures Next(old(View(now)), Action.UnsubscribeAll(topic), View(now), service.renewalMargin)
      ensures Inv(View(now), service.renewalMargin)
      ensures Enumerates(ids, OfTopic(old(service.db), topic))
      ensures forall id :: id in ids <==> id in old(service.db).subs && old(service.db).subs[id].topic == topic
      ensures forall id :: id in service.db.subs <==>
        id in old(service.db).subs && old(service.db).subs[id].topic != topic
      ensures |requests| == |ids| && forall k: nat :: k < |ids| ==>
        && requests[k].UnsubscribeFrom? && requests[k].topic == topic
        && ids[k] in old(service.db).subs && requests[k].hub == old(service.db).subs[ids[k]].hub
        && ('?' !in service.callback ==> Reaches(requests[k], service.callback, ids[k]))
      ensures service.Farewells(old(service.db).subs, ids, topic, requests)
      ensures service.sent == old(service.sent)
    {
      ghost var before := View(now);
      requests, ids := service.UnsubscribeAll(topic);
      ApplyOne(before.t, DropTopic(topic));
      StepKeepsInv(before, Action.UnsubscribeAll(topic), service.renewalMargin);
    }

    /** A verification request whose path led to `id`. */
    method VerifyAt(id: int, query: Query, now: nat) returns (response: Response)
      requires Valid() && Inv(View(now), service.renewalMargin)
      requires query.VerifySubscribe? ==> query.lease <= U64_MAX
      modifies service, service.handle
      ensures Valid()
      ensures Inv(View(now), service.renewalMargin)
      ensures
        if query.VerifySubscribe? then
          Next(old(View(now)), Verify(id, query.topic, query.lease), View(now), service.renewalMargin)
        else
          View(now) == old(View(now))
      ensures response == service.Answer(old(service.db), id, query)
      ensures service.sent == old(service.sent) +
        if query.VerifySubscribe? && Confirms(old(service.db), id, query.topic) then
          service.Farewell(old(service.db), id)
        else []
    {
      ghost var before := View(now);
      response := service.VerifyIntent(id, query, now);
      if query.VerifySubscribe? {
        ghost var a := Verify(id, query.topic, query.lease);
        if Confirms(before.t, id, query.topic) {
          assert Expires(now, query.lease) >= 0;
        }
        StepKeepsInv(before, a, service.renewalMargin);
      }
    }

    /** A hub's verification request to `path`, up to its response. */
    method Call(path: string, query: Query, now: nat) returns (response: Response)
      requires Valid() && Inv(View(now), service.renewalMargin)
      requires query.VerifySubscribe? ==> query.lease <= U64_MAX
      modifies service, service.handle
      ensures Valid()
      ensures Inv(View(now), service.renewalMargin)
      ensures
        var route := Resolved(service.callback, path);
        if route.Id? && query.VerifySubscribe? then
          Next(old(View(now)), Verify(route.id, query.topic, query.lease), View(now), service.renewalMargin)
        else
          View(now) == old(View(now))
      ensures
        match Resolved(service.callback, path)
        case NotFound => response == Status404
        case BadRequest => response == Status400
        case Id(id) => response == service.Answer(old(service.db), id, query)
      ensures
        var route := Resolved(service.callback, path);
        route.Id? && query.VerifySubscribe? ==>
          var accepted :=
            route.id in old(service.db).pending && old(service.db).subs[route.id].topic == query.topic;
          && response == (if accepted then Confirmed(query.challenge) else Status404)
          && (route.id in service.db.active <==> route.id in old(service.db).active || accepted)
      ensures
        var route := Resolved(service.callback, path);
        service.sent == old(service.sent) +
          if route.Id? && query.VerifySubscribe? && Confirms(old(service.db), route.id, query.topic) then
            service.Farewell(old(service.db), route.id)
          else []
    {
      ghost var before := View(now);
      var route := Resolve(service.callback, path);
      match route
      case NotFound => return Status404;
      case BadRequest => return Status400;
      case Id(id) =>
        response := VerifyAt(id, query, now);
        service.AnswerMeans(before.t, id, query);
        if query.VerifySubscribe? {
          VerificationActivatesIff(before, id, query.topic, query.lease, service.renewalMargin);
        }
    }
  }
}
