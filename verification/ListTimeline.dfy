/** Requests to a list timeline: the periodic ones, bounded below by the newest id seen, and
    the backfill that pages through what was posted while the program was down. Tweets are
    their ids. */
module ListTimeline {
  import opened Basics
  import opened Interval
  import opened Snowflake

  // ---- Timelines ---------------------------------------------------------------------

  /** Newest first. */
  ghost predicate Descending(ids: seq<int>) {
    forall i, j :: 0 <= i < j < |ids| ==> ids[i] > ids[j]
  }

  /** The first `n` ids, less those not above `since`. */
  function AboveAmong(ids: seq<int>, since: int, n: nat): seq<int>
    requires n <= |ids|
  {
    if n == 0 then [] else AboveAmong(ids, since, n - 1) + if ids[n - 1] > since then [ids[n - 1]] else []
  }

  function Above(ids: seq<int>, since: int): seq<int> {
    AboveAmong(ids, since, |ids|)
  }

  predicate Within(id: int, max: Option<int>) {
    max.Some? ==> id <= max.value
  }

  function UpToAmong(ids: seq<int>, max: Option<int>, n: nat): seq<int>
    requires n <= |ids|
  {
    if n == 0 then [] else UpToAmong(ids, max, n - 1) + if Within(ids[n - 1], max) then [ids[n - 1]] else []
  }

  function UpTo(ids: seq<int>, max: Option<int>): seq<int> {
    UpToAmong(ids, max, |ids|)
  }

  /** What is at or below the bound is never asked for again. */
  lemma {:induction false} AboveIff(ids: seq<int>, since: int, n: nat, id: int)
    requires n <= |ids|
    ensures id in AboveAmong(ids, since, n) <==> id > since && id in ids[..n]
  {
    if n > 0 {
      AboveIff(ids, since, n - 1, id);
      assert ids[..n] == ids[..n - 1] + [ids[n - 1]];
    }
  }

  lemma {:induction false} AboveIsPrefix(ids: seq<int>, since: int, n: nat)
    requires Descending(ids) && n <= |ids|
    ensures AboveAmong(ids, since, n) <= ids
    ensures n > 0 && ids[n - 1] > since ==> AboveAmong(ids, since, n) == ids[..n]
  {
    if n > 0 {
      AboveIsPrefix(ids, since, n - 1);
      assert ids[..n] == ids[..n - 1] + [ids[n - 1]];
    }
  }

  lemma {:induction false} EverythingUpTo(ids: seq<int>, n: nat)
    requires n <= |ids|
    ensures UpToAmong(ids, None, n) == ids[..n]
  {
    if n > 0 {
      EverythingUpTo(ids, n - 1);
      assert ids[..n] == ids[..n - 1] + [ids[n - 1]];
    }
  }

  /** Asking for ids below the `m`-th gives exactly what follows it. */
  lemma {:induction false} UpToNext(ids: seq<int>, m: nat, n: nat)
    requires Descending(ids) && 0 < m <= |ids| && n <= |ids|
    ensures UpToAmong(ids, Some(ids[m - 1] - 1), n) == if m <= n then ids[m..n] else []
  {
    if n > 0 {
      UpToNext(ids, m, n - 1);
      if m < n {
        assert ids[m..n] == ids[m..n - 1] + [ids[n - 1]];
      }
    }
  }

  // ---- The API -----------------------------------------------------------------------

  datatype RateLimit = RateLimit(remaining: nat, reset: nat)

  datatype Answer =
    | Page(ids: seq<int>, limit: Option<RateLimit>)
    | TwitterError(limit: Option<RateLimit>)
    | OtherError

  /** The answer to a request for `since` and `max`. */
  type Server = (int, Option<int>) -> Answer

  /** Any page is a newest-first run of what is eligible, and is empty only if nothing is; any
      request may fail. `all` is what is above `since`. */
  ghost predicate Serves(server: Server, since: int, all: seq<int>) {
    forall max :: server(since, max).Page? ==> IsPage(server(since, max).ids, UpTo(all, max))
  }

  ghost predicate IsPage(page: seq<int>, eligible: seq<int>) {
    page <= eligible && (page == [] ==> eligible == [])
  }

  // ---- Periodic requests -------------------------------------------------------------

  class RequestSender {
    const delay: nat
    const handle: Handle
    var sinceId: int
    /** The pages handed to the receiver, and how many more it takes before it is dropped. */
    var sent: seq<seq<int>>
    var room: nat

    constructor (delay: nat, handle: Handle, room: nat)
      ensures this.delay == delay && this.handle == handle && sinceId == 0 && sent == [] && this.room == room
    {
      this.delay, this.handle, sinceId, sent, this.room := delay, handle, 0, [], room;
    }

    method SetSinceId(id: int)
      modifies `sinceId
      ensures sinceId == if old(sinceId) < id then id else old(sinceId)
    {
      if sinceId < id {
        sinceId := id;
      }
    }

    method StartSend(page: seq<int>) returns (ok: bool)
      modifies `sent, `room
      ensures ok <==> old(room) > 0
      ensures ok ==> sent == old(sent) + [page] && room == old(room) - 1
      ensures !ok ==> sent == old(sent) && room == old(room)
    {
      ok := room > 0;
      if ok {
        sent, room := sent + [page], room - 1;
      }
    }

    /** The bound and the count of the next request, at a time whose distance to `delay` is
        `horizon`; an outer `None` is a panic. */
    method Request(horizon: Duration) returns (since: Option<Option<int>>, count: nat)
      ensures since == SinceId(sinceId, horizon)
      ensures since.Some? ==> (count == 1 <==> since.value == None) && (count == 200 <==> since.value.Some?)
      ensures since.Some? ==> (since.value == None <==> sinceId == 0)
    {
      since := SinceId(sinceId, horizon);
      count := if since.Some? && since.value.Some? then 200 else 1;
    }

    /** What happens when the answer to a request arrives. */
    method OnAnswer(answer: Answer)
      modifies this, handle
      ensures
        var delivered := answer.Page? && answer.ids != [] && old(room) > 0;
        && sent == (if delivered then old(sent) + [answer.ids] else old(sent))
        && sinceId == (if delivered && old(sinceId) < answer.ids[0] then answer.ids[0] else old(sinceId))
      ensures
        var dropped := answer.Page? && answer.ids != [] && old(room) == 0;
        var limit := if answer.OtherError? || dropped then None else answer.limit;
        handle.nextTick ==
          if limit.Some? && limit.value.remaining == 0 then Max(old(handle.nextTick), limit.value.reset)
          else old(handle.nextTick)
    {
      var limit := None;
      match answer {
        case Page(ids, l) =>
          if ids != [] {
            var ok := StartSend(ids);
            if !ok {
              return;
            }
            SetSinceId(ids[0]);
          }
          limit := l;
        case TwitterError(l) => limit := l;
        case OtherError => return;
      }
      if limit.Some? {
        if limit.value.remaining == 0 {
          handle.Delay(limit.value.reset);
        }
      }
    }
  }

  // ---- Backfill ----------------------------------------------------------------------

  function Flatten(pages: seq<seq<int>>): seq<int> {
    if pages == [] then [] else Flatten(pages[..|pages| - 1]) + pages[|pages| - 1]
  }

  lemma FlattenSnoc(pages: seq<seq<int>>, page: seq<int>)
    ensures Flatten(pages + [page]) == Flatten(pages) + page
  {
    assert (pages + [page])[..|pages|] == pages;
  }

  /** A page of what follows the first `k` ids runs from the `k`-th to the `n`-th. */
  lemma PageFollows(ids: seq<int>, k: nat, page: seq<int>, n: nat)
    requires k <= |ids| && page != [] && page <= ids[k..] && n == k + |page|
    ensures n <= |ids| && page[0] == ids[k] && page[|page| - 1] == ids[n - 1]
    ensures ids[..n] == ids[..k] + page
  {
  }

  /** After a page, the request for what is older than its last id asks for exactly what
      follows the page. */
  lemma WhatFollows(all: seq<int>, k: nat, page: seq<int>)
    requires Descending(all) && k <= |all| && page != [] && page <= all[k..]
    ensures
      var n := k + |page|;
      && n <= |all| && page[0] == all[k] && all[..n] == all[..k] + page
      && UpTo(all, Some(page[|page| - 1] - 1)) == all[n..]
  {
    var n := k + |page|;
    PageFollows(all, k, page, n);
    UpToNext(all, n, |all|);
    assert all[n..|all|] == all[n..];
  }

  /** The upper bound of the request that is made once the first `k` of `all` are fetched. */
  function NextMax(all: seq<int>, k: nat): Option<int>
    requires k <= |all|
  {
    if k == 0 then None else Some(all[k - 1] - 1)
  }

  datatype Ending = Completed | RequestFailed | Disconnected

  class Backfill {
    const sinceId: int
    const sender: RequestSender
    const server: Server
    /** The response that the future is waiting for. */
    var response: Answer
    /** What was posted above `sinceId`. */
    ghost const all: seq<int>
    /** What was sent before the backfill, and the pages and the number of Tweets that it has
        sent since. */
    ghost const before: seq<seq<int>>
    ghost var pages: seq<seq<int>>
    ghost var fetched: nat

    /** The response is the answer to a request for exactly what has not been fetched. */
    ghost predicate Awaits()
      reads this
    {
      fetched <= |all| ==>
        && response == server(sinceId, NextMax(all, fetched))
        && (response.Page? ==> IsPage(response.ids, all[fetched..]))
    }

    ghost predicate Valid()
      reads this, sender
    {
      && Serves(server, sinceId, all) && Descending(all)
      && fetched <= |all| && Flatten(pages) == all[..fetched]
      && sender.sent == before + pages
      && (fetched > 0 ==> sender.sinceId >= all[0])
    }

    constructor (since: int, sender: RequestSender, server: Server, ghost timeline: seq<int>)
      requires Descending(timeline) && Serves(server, since, Above(timeline, since))
      ensures Valid() && Awaits() && fetched == 0
      ensures this.sinceId == since && this.sender == sender && before == sender.sent
      ensures all == Above(timeline, since)
    {
      sinceId, this.sender, this.server, all := since, sender, server, Above(timeline, since);
      before, pages, fetched := sender.sent, [], 0;
      response := server(since, None);
      new;
      AboveIsPrefix(timeline, since, |timeline|);
      EverythingUpTo(all, |all|);
      assert all[0..] == all == all[..|all|];
    }

    /** Asks for what follows `tweets`, and sends them. */
    method Continue(tweets: seq<int>) returns (ok: bool)
      requires Valid() && tweets != [] && tweets <= all[fetched..]
      modifies this, sender`sinceId, sender`sent, sender`room
      ensures Valid() && sender.sinceId >= old(sender.sinceId) && sender.sinceId >= tweets[0]
      ensures ok <==> old(sender.room) > 0
      ensures ok ==>
        && Awaits() && fetched == old(fetched) + |tweets| && pages == old(pages) + [tweets]
        && sender.room == old(sender.room) - 1
      ensures !ok ==> fetched == old(fetched) && pages == old(pages) && sender.room == old(sender.room)
    {
      WhatFollows(all, fetched, tweets);
      sender.SetSinceId(tweets[0]);
      response := server(sinceId, Some(tweets[|tweets| - 1] - 1));
      ok := sender.StartSend(tweets);
      if ok {
        FlattenSnoc(pages, tweets);
        Associative(before, pages, [tweets]);
        pages, fetched := pages + [tweets], fetched + |tweets|;
      }
    }

    /** One `poll` whose response is ready: `Some` when the future is. */
    method Poll() returns (ending: Option<Ending>)
      requires Valid() && Awaits()
      modifies this, sender`sinceId, sender`sent, sender`room
      ensures Valid() && sender.sinceId >= old(sender.sinceId)
      ensures ending == Some(RequestFailed) <==> !server(sinceId, NextMax(all, old(fetched))).Page?
      ensures ending == Some(Disconnected) ==> fetched < |all| && sender.room == 0
      ensures ending == Some(Completed) ==> fetched == |all|
      ensures ending.Some? ==> pages == old(pages) && fetched == old(fetched) && sender.room == old(sender.room)
      ensures ending == None ==>
        && Awaits() && fetched > old(fetched)
        && |pages| == |old(pages)| + 1 && sender.room == old(sender.room) - 1
    {
      if !response.Page? {
        return Some(RequestFailed);
      }
      var tweets := response.ids;
      if tweets == [] {
        return Some(Completed);
      }
      var ok := Continue(tweets);
      ending := if ok then None else Some(Disconnected);
    }

    /** The future run to its end. It always ends; the pages it sent follow one another without
        a gap or a repeat from the newest eligible Tweet on. They make up all of the eligible
        Tweets unless the request for the next of them failed, or the receiver was dropped
        with some left: so they do for every server that serves and every receiver that stays. */
    method Drive() returns (ending: Ending)
      requires Valid() && Awaits() && fetched == 0
      modifies this, sender`sinceId, sender`sent, sender`room
      ensures sender.sent == before + pages
      ensures fetched <= |all| && Flatten(pages) == all[..fetched]
      ensures ending == RequestFailed <==> !server(sinceId, NextMax(all, fetched)).Page?
      ensures ending != RequestFailed ==> (ending == Completed <==> Flatten(pages) == all)
      ensures ending == Disconnected ==> |pages| == old(sender.room) + |old(pages)|
      ensures (forall max :: server(sinceId, max).Page?) && old(sender.room) >= |all| ==>
        ending == Completed && Flatten(pages) == all
      ensures fetched > 0 ==> sender.sinceId >= all[0]
      ensures sender.sinceId >= old(sender.sinceId)
    {
      while true
        invariant Valid() && Awaits() && sender.sinceId >= old(sender.sinceId)
        invariant |pages| + sender.room == |old(pages)| + old(sender.room)
        invariant |pages| <= |old(pages)| + fetched
        decreases |all| - fetched
      {
        var end := Poll();
        if end.Some? {
          return end.value;
        }
      }
    }
  }
}
