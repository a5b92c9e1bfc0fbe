/** Dispatch of Tweets to be retweeted, against the tables that remember what was dispatched. */
module Dispatch {
  import opened Basics
  import opened Router

  datatype Stored = Stored(text: string, user: int)

  /** A retweet task. One with a duplicate waits for a check that the duplicate is gone. */
  datatype Task = Task(id: int, users: seq<int>, duplicate: Option<int>)

  /** `tokens` is the table that `ongoing_retweets.user` refers to; `tasks` are the retweet
      tasks made so far. */
  datatype State = State(
    tweets: map<int, Stored>,
    lastTweet: int,
    ongoing: set<(int, int)>,
    tasks: seq<Task>)

  datatype Config = Config(skipDuplicate: bool, router: Index, tokens: set<int>)

  /** The statement at which the database fails, if any. */
  datatype Fault = NoFault | AtLookup | AtUpdate | AtDuplicate | AtRetweet

  function UsersOf(outboxes: seq<Outbox>): seq<int> {
    seq(|outboxes|, i requires 0 <= i < |outboxes| => outboxes[i].user)
  }

  function Routed(c: Config, t: Tweet): seq<int> {
    UsersOf(Outboxes(Get(c.router, Twitter(t.user)), r => AllowsTweet(r, t)))
  }

  function SameTweets(s: State, t: Tweet): set<int> {
    set id | id in s.tweets && s.tweets[id] == Stored(t.text, t.user)
  }

  /** `SELECT max(id)`. */
  function Latest(ids: set<int>): (r: Option<int>)
    ensures r == None <==> ids == {}
    ensures r.Some? ==> r.value in ids && forall x :: x in ids ==> x <= r.value
  {
    if ids == {} then None
    else
      GreatestExists(ids);
      var m :| m in ids && forall x :: x in ids ==> x <= m;
      Some(m)
  }

  // ---- One Tweet ---------------------------------------------------------------------

  /** The transaction of `retweet`; it is rolled back if an outbox user has no token row. */
  function Retweet(s: State, t: Tweet, c: Config, duplicate: Option<int>): Option<State> {
    if exists u :: u in Routed(c, t) && u !in c.tokens then None
    else Some(State(
      s.tweets[t.id := Stored(t.text, t.user)],
      s.lastTweet,
      s.ongoing + (set u | u in Routed(c, t) :: (t.id, u)),
      s.tasks + [Task(t.id, Routed(c, t), duplicate)]))
  }

  datatype Result = Result(s: State, ok: bool)

  function Bumped(s: State, t: Tweet, update: bool): State {
    if update && s.lastTweet < t.id then s.(lastTweet := t.id) else s
  }

  function FinishRetweet(s: State, t: Tweet, c: Config, duplicate: Option<int>, fault: Fault): Result {
    match (if fault == AtRetweet then None else Retweet(s, t, c, duplicate))
    case None => Result(s, false)
    case Some(s') => Result(s', true)
  }

  function SendOne(s: State, t: Tweet, c: Config, update: bool, fault: Fault): Result {
    if fault == AtLookup then Result(s, false)
    else if t.id in s.tweets then Result(s, true)
    else if update && fault == AtUpdate then Result(s, false)
    else
      var s := Bumped(s, t, update);
      if t.isRetweet then Result(s, true)
      else if !c.skipDuplicate then FinishRetweet(s, t, c, None, fault)
      else if Routed(c, t) == [] then Result(s, true)
      else if fault == AtDuplicate then Result(s, false)
      else FinishRetweet(s, t, c, Latest(SameTweets(s, t)), fault)
  }

  /** The Tweet is one that is retweeted, and remembered with it. */
  predicate Wanted(t: Tweet, c: Config) {
    !t.isRetweet && (c.skipDuplicate ==> Routed(c, t) != [])
  }

  // ---- Who gets it, by the rules -----------------------------------------------------

  /** Some rule sends the Tweet to the outbox of `user`. */
  ghost predicate SentTo(rules: seq<Rule>, t: Tweet, user: int) {
    SomeRule(rules, TwitterOutbox(user), rule => TakesTweet(rule, t))
  }

  lemma RoutedAsScanned(c: Config, rules: seq<Rule>, t: Tweet)
    requires Indexes(c.router, rules)
    ensures Routed(c, t) == UsersOf(Scan(rules, Twitter(t.user), r => AllowsTweet(r, t)))
  {
    IndexAgreesWithScan(rules, Twitter(t.user), r => AllowsTweet(r, t));
    assert Get(c.router, Twitter(t.user)) == RoutesFor(rules, Twitter(t.user));
  }

  lemma RoutedIff(c: Config, rules: seq<Rule>, t: Tweet)
    requires Indexes(c.router, rules)
    ensures forall u :: u in Routed(c, t) <==> SentTo(rules, t, u)
  {
    RoutedAsScanned(c, rules, t);
    var scan := Scan(rules, Twitter(t.user), r => AllowsTweet(r, t));
    forall u
      ensures u in UsersOf(scan) <==> TwitterOutbox(u) in scan
      ensures u in Routed(c, t) <==> SentTo(rules, t, u)
    {
      assert forall i :: 0 <= i < |scan| ==> UsersOf(scan)[i] == scan[i].user && scan[i] == TwitterOutbox(scan[i].user);
      ScanIff(rules, Twitter(t.user), r => AllowsTweet(r, t), rule => TakesTweet(rule, t), TwitterOutbox(u));
    }
  }

  ghost predicate TaskFor(task: Task, t: Tweet, rules: seq<Rule>) {
    task.id == t.id && forall u :: u in task.users <==> SentTo(rules, t, u)
  }

  /** Between `before` and `after` at most one task was added, and that is for `t`, which is no
      retweet itself. */
  ghost predicate AddsTaskFor(before: seq<Task>, after: seq<Task>, t: Tweet, rules: seq<Rule>) {
    || after == before
    || (!t.isRetweet && |after| == |before| + 1 && before <= after && TaskFor(after[|before|], t, rules))
  }

  /** `d` is the newest Tweet remembered with the author and the text of `t`. */
  ghost predicate IsNewestSame(d: Option<int>, s: State, t: Tweet) {
    && (d.Some? ==> d.value in s.tweets && s.tweets[d.value].text == t.text && s.tweets[d.value].user == t.user)
    && forall id :: id in s.tweets && s.tweets[id].text == t.text && s.tweets[id].user == t.user ==>
         d.Some? && id <= d.value
  }

  /** None of the statements that stand before a retweet, or make it up, fails. */
  predicate NoneFails(fault: Fault, update: bool, skipDuplicate: bool) {
    match fault
    case NoFault => true
    case AtLookup => false
    case AtUpdate => !update
    case AtDuplicate => !skipDuplicate
    case AtRetweet => false
  }

  /** The Tweet is neither remembered nor a retweet, nothing fails, everyone it goes to has a
      token row and, when duplicates are to be skipped, it goes to someone. */
  ghost predicate IsSent(s: State, t: Tweet, c: Config, update: bool, fault: Fault, rules: seq<Rule>) {
    && t.id !in s.tweets && !t.isRetweet && NoneFails(fault, update, c.skipDuplicate)
    && (forall u :: SentTo(rules, t, u) ==> u in c.tokens)
    && (c.skipDuplicate ==> exists u :: SentTo(rules, t, u))
  }

  /** What one send does, by the rules: exactly if it is to be sent, the Tweet is remembered
      with everyone it goes to, and a task made for them; the duplicate that the task has to
      check for is the newest one. */
  lemma SendOneMeans(s: State, t: Tweet, c: Config, update: bool, fault: Fault, rules: seq<Rule>)
    requires Indexes(c.router, rules)
    ensures
      var r := SendOne(s, t, c, update, fault).s;
      if IsSent(s, t, c, update, fault, rules) then
        && |r.tasks| == |s.tasks| + 1 && s.tasks <= r.tasks
        && TaskFor(r.tasks[|s.tasks|], t, rules)
        && r.tweets == s.tweets[t.id := Stored(t.text, t.user)]
        && (if c.skipDuplicate then IsNewestSame(r.tasks[|s.tasks|].duplicate, s, t)
            else r.tasks[|s.tasks|].duplicate == None)
        && forall id, u :: (id, u) in r.ongoing <==> (id, u) in s.ongoing || (id == t.id && SentTo(rules, t, u))
      else r.tasks == s.tasks && r.tweets == s.tweets && r.ongoing == s.ongoing
    ensures
      SendOne(s, t, c, update, fault).s.lastTweet ==
      if update && t.id !in s.tweets && s.lastTweet < t.id && fault != AtLookup && fault != AtUpdate then t.id
      else s.lastTweet
  {
    RoutedIff(c, rules, t);
    IsSentIff(s, t, c, update, fault, rules);
    DuplicateIsNewest(s, t);
    assert SameTweets(Bumped(s, t, update), t) == SameTweets(s, t);
  }

  lemma IsSentIff(s: State, t: Tweet, c: Config, update: bool, fault: Fault, rules: seq<Rule>)
    requires forall u :: u in Routed(c, t) <==> SentTo(rules, t, u)
    ensures IsSent(s, t, c, update, fault, rules) <==>
      && t.id !in s.tweets && !t.isRetweet && NoneFails(fault, update, c.skipDuplicate)
      && (forall u :: u in Routed(c, t) ==> u in c.tokens)
      && (c.skipDuplicate ==> Routed(c, t) != [])
  {
    if Routed(c, t) != [] {
      assert Routed(c, t)[0] in Routed(c, t);
    }
  }

  lemma TasksMean(s: State, t: Tweet, c: Config, update: bool, fault: Fault, rules: seq<Rule>)
    ensures Indexes(c.router, rules) ==>
      AddsTaskFor(s.tasks, SendOne(s, t, c, update, fault).s.tasks, t, rules)
  {
    if Indexes(c.router, rules) {
      SendOneMeans(s, t, c, update, fault, rules);
    }
  }

  lemma DuplicateIsNewest(s: State, t: Tweet)
    ensures IsNewestSame(Latest(SameTweets(s, t)), s, t)
  {
    assert forall id :: id in s.tweets && s.tweets[id].text == t.text && s.tweets[id].user == t.user ==>
      id in SameTweets(s, t);
  }

  /** Nothing more is to be done for the Tweet. */
  predicate Handled(s: State, t: Tweet, c: Config) {
    t.id in s.tweets || !Wanted(t, c)
  }

  lemma SendingHandles(s: State, t: Tweet, c: Config, update: bool, fault: Fault)
    ensures
      var r := SendOne(s, t, c, update, fault);
      && (r.ok ==> Handled(r.s, t, c))
      && s.lastTweet <= r.s.lastTweet
      && (!update ==> r.s.lastTweet == s.lastTweet)
      && (r.s.lastTweet != s.lastTweet ==> r.s.lastTweet == t.id)
      && s.tweets.Keys <= r.s.tweets.Keys
  {
  }

  /** The bookmark may come to rest on a Tweet that was not handled: exactly when the Tweet is
      new, moves the bookmark, and the duplicate lookup or the retweet transaction fails. */
  lemma BookmarkPassesUnhandledIff(s: State, t: Tweet, c: Config, fault: Fault)
    ensures
      var r := SendOne(s, t, c, true, fault);
      !r.ok && r.s.lastTweet != s.lastTweet <==>
      && t.id !in s.tweets && s.lastTweet < t.id && fault != AtLookup && fault != AtUpdate
      && !t.isRetweet && (c.skipDuplicate ==> Routed(c, t) != [])
      && ((c.skipDuplicate && fault == AtDuplicate) || fault == AtRetweet
          || exists u :: u in Routed(c, t) && u !in c.tokens)
  {
  }

  // A follower of user 7, whose Tweets go to outbox 1.
  const ROUTE := Route(None, None, [TwitterOutbox(1)])
  const CONFIG := Config(false, map[Twitter(7) := [ROUTE]], {1})

  lemma ConfigRoutes(t: Tweet)
    requires t.user == 7
    ensures Routed(CONFIG, t) == [1]
  {
    var allows := (r: Route) => AllowsTweet(r, t);
    assert [ROUTE][..0] == [] && Outboxes([], allows) == [];
    assert Outboxes([ROUTE], allows) == [] + ROUTE.outbox == [TwitterOutbox(1)];
  }

  /** A Tweet above the bookmark whose retweet the database fails to record. */
  lemma BookmarkCanPassUnhandled()
    ensures
      var s, t := State(map[], 1, {}, []), Tweet(2, "text", 7, false);
      var r := SendOne(s, t, CONFIG, true, AtRetweet);
      !r.ok && r.s.lastTweet == 2 && !Handled(r.s, t, CONFIG)
  {
    ConfigRoutes(Tweet(2, "text", 7, false));
  }

  // ---- A batch -----------------------------------------------------------------------

  /** Oldest first, and only the newest Tweet moves the bookmark. The batch is newest first,
      and stops at the first error. `k` Tweets are left. */
  function SendBatch(s: State, ts: seq<Tweet>, c: Config, faults: seq<Fault>, k: nat): Result
    requires k <= |ts| == |faults|
    decreases k
  {
    if k == 0 then Result(s, true)
    else
      var r := SendOne(s, ts[k - 1], c, k == 1, faults[k - 1]);
      if !r.ok then r else SendBatch(r.s, ts, c, faults, k - 1)
  }

  /** The bookmark moves, if at all, to the newest Tweet of the batch, and only when every
      older one has been handled. */
  lemma {:induction false} BookmarkMovesLast(s: State, ts: seq<Tweet>, c: Config, faults: seq<Fault>, k: nat)
    requires k <= |ts| == |faults|
    ensures
      var r := SendBatch(s, ts, c, faults, k);
      && s.lastTweet <= r.s.lastTweet
      && s.tweets.Keys <= r.s.tweets.Keys
      && (r.ok ==> forall i :: 0 <= i < k ==> Handled(r.s, ts[i], c))
      && (r.s.lastTweet != s.lastTweet ==>
            k > 0 && r.s.lastTweet == ts[0].id && forall i :: 1 <= i < k ==> Handled(r.s, ts[i], c))
    decreases k
  {
    if k > 0 {
      SendingHandles(s, ts[k - 1], c, k == 1, faults[k - 1]);
      var r := SendOne(s, ts[k - 1], c, k == 1, faults[k - 1]);
      if r.ok {
        BookmarkMovesLast(r.s, ts, c, faults, k - 1);
      }
    }
  }

  // ---- Runs --------------------------------------------------------------------------

  /** From the stream, from the list, or a retweet done. The configuration may change between
      deliveries. */
  datatype Event =
    | Streamed(t: Tweet, c: Config, fault: Fault)
    | Listed(ts: seq<Tweet>, c: Config, faults: seq<Fault>)
    | Retweeted(id: int, user: int)

  ghost predicate Legal(e: Event) {
    e.Listed? ==> |e.ts| == |e.faults|
  }

  function Step(s: State, e: Event): State
    requires Legal(e)
  {
    match e
    case Streamed(t, c, fault) => SendOne(s, t, c, true, fault).s
    case Listed(ts, c, faults) => SendBatch(s, ts, c, faults, |ts|).s
    case Retweeted(id, user) => s.(ongoing := s.ongoing - {(id, user)})
  }

  function Run(s: State, es: seq<Event>): State
    requires forall k :: 0 <= k < |es| ==> Legal(es[k])
  {
    if es == [] then s else Step(Run(s, es[..|es| - 1]), es[|es| - 1])
  }

  /** No two tasks are for one Tweet, and every task's Tweet is remembered. */
  ghost predicate OncePerTweet(s: State) {
    && (forall i, j :: 0 <= i < j < |s.tasks| ==> s.tasks[i].id != s.tasks[j].id)
    && (forall i :: 0 <= i < |s.tasks| ==> s.tasks[i].id in s.tweets)
  }

  /** `s'` follows `s`: tasks are only added, none for a Tweet that was remembered. */
  ghost predicate Follows(s: State, s': State) {
    && s.lastTweet <= s'.lastTweet
    && s.tweets.Keys <= s'.tweets.Keys
    && s.tasks <= s'.tasks
    && (forall i :: |s.tasks| <= i < |s'.tasks| ==> s'.tasks[i].id !in s.tweets)
  }

  lemma FinishRetweetKeeps(s: State, t: Tweet, c: Config, duplicate: Option<int>, fault: Fault)
    requires OncePerTweet(s) && t.id !in s.tweets
    ensures
      var s' := FinishRetweet(s, t, c, duplicate, fault).s;
      OncePerTweet(s') && Follows(s, s')
  {
  }

  lemma SendOneKeeps(s: State, t: Tweet, c: Config, update: bool, fault: Fault)
    requires OncePerTweet(s)
    ensures OncePerTweet(SendOne(s, t, c, update, fault).s) && Follows(s, SendOne(s, t, c, update, fault).s)
  {
    if t.id !in s.tweets {
      var s1 := Bumped(s, t, update);
      FinishRetweetKeeps(s1, t, c, None, fault);
      FinishRetweetKeeps(s1, t, c, Latest(SameTweets(s1, t)), fault);
    }
  }

  lemma {:induction false} SendBatchKeeps(s: State, ts: seq<Tweet>, c: Config, faults: seq<Fault>, k: nat)
    requires OncePerTweet(s) && k <= |ts| == |faults|
    ensures
      var s' := SendBatch(s, ts, c, faults, k).s;
      OncePerTweet(s') && Follows(s, s')
    decreases k
  {
    if k > 0 {
      SendOneKeeps(s, ts[k - 1], c, k == 1, faults[k - 1]);
      var r := SendOne(s, ts[k - 1], c, k == 1, faults[k - 1]);
      if r.ok {
        SendBatchKeeps(r.s, ts, c, faults, k - 1);
      }
    }
  }

  /** Over any deliveries, from anywhere and under any configurations, a Tweet is given to
      `retweet` at most once, never if it was remembered at the start, and the bookmark never
      moves back. */
  lemma {:induction false} AtMostOnce(s: State, es: seq<Event>)
    requires OncePerTweet(s) && forall k :: 0 <= k < |es| ==> Legal(es[k])
    ensures OncePerTweet(Run(s, es)) && Follows(s, Run(s, es))
  {
    if es != [] {
      var init, e := es[..|es| - 1], es[|es| - 1];
      AtMostOnce(s, init);
      var s1 := Run(s, init);
      match e {
        case Streamed(t, c, fault) => SendOneKeeps(s1, t, c, true, fault);
        case Listed(ts, c, faults) => SendBatchKeeps(s1, ts, c, faults, |ts|);
        case Retweeted(_, _) =>
      }
    }
  }

  // ---- What the bookmark covers ------------------------------------------------------

  function WantedId(t: Tweet, c: Config): set<int> {
    if Wanted(t, c) then {t.id} else {}
  }

  /** What dispatch goes by: the ids of the Tweets remembered, and the bookmark. */
  datatype Book = Book(ids: set<int>, mark: int)

  function BookOf(s: State): Book {
    Book(s.tweets.Keys, s.lastTweet)
  }

  /** A send goes through: the Tweet was remembered before, or no statement that it takes
      fails and, if it is wanted, every user that it is routed to has a token row. */
  predicate GoesThrough(b: Book, t: Tweet, c: Config, update: bool, fault: Fault) {
    && fault != AtLookup
    && (t.id in b.ids
        || (&& (update ==> fault != AtUpdate)
            && (Wanted(t, c) ==>
                  && fault != AtRetweet && (c.skipDuplicate ==> fault != AtDuplicate)
                  && forall u :: u in Routed(c, t) ==> u in c.tokens)))
  }

  /** A send moves the bookmark, whether or not it then goes through. */
  predicate Moves(b: Book, t: Tweet, update: bool, fault: Fault) {
    update && t.id !in b.ids && b.mark < t.id && fault != AtLookup && fault != AtUpdate
  }

  function Entered(b: Book, t: Tweet, c: Config, update: bool, fault: Fault): Book {
    Book(
      b.ids + if GoesThrough(b, t, c, update, fault) then WantedId(t, c) else {},
      if Moves(b, t, update, fault) then t.id else b.mark)
  }

  /** A batch, of which `k` Tweets are left, up to the first send that does not go through. */
  function EnteredBatch(b: Book, ts: seq<Tweet>, c: Config, faults: seq<Fault>, k: nat): Book
    requires k <= |ts| == |faults|
    decreases k
  {
    if k == 0 then b
    else
      var t, update, fault := ts[k - 1], k == 1, faults[k - 1];
      var b' := Entered(b, t, c, update, fault);
      if GoesThrough(b, t, c, update, fault) then EnteredBatch(b', ts, c, faults, k - 1) else b'
  }

  function EnteredEvent(b: Book, e: Event): Book
    requires Legal(e)
  {
    match e
    case Streamed(t, c, fault) => Entered(b, t, c, true, fault)
    case Listed(ts, c, faults) => EnteredBatch(b, ts, c, faults, |ts|)
    case Retweeted(_, _) => b
  }

  /** The book after a run, from the book before and what was delivered, where the database
      failed, and who had a token row. */
  function EnteredRun(b: Book, es: seq<Event>): Book
    requires forall k :: 0 <= k < |es| ==> Legal(es[k])
  {
    if es == [] then b else EnteredEvent(EnteredRun(b, es[..|es| - 1]), es[|es| - 1])
  }

  lemma SendRecordsIff(s: State, t: Tweet, c: Config, update: bool, fault: Fault)
    ensures
      var r := SendOne(s, t, c, update, fault);
      && (r.ok <==> GoesThrough(BookOf(s), t, c, update, fault))
      && BookOf(r.s) == Entered(BookOf(s), t, c, update, fault)
  {
  }

  lemma {:induction false} BatchRecordsIff(s: State, ts: seq<Tweet>, c: Config, faults: seq<Fault>, k: nat)
    requires k <= |ts| == |faults|
    ensures BookOf(SendBatch(s, ts, c, faults, k).s) == EnteredBatch(BookOf(s), ts, c, faults, k)
    decreases k
  {
    if k > 0 {
      SendRecordsIff(s, ts[k - 1], c, k == 1, faults[k - 1]);
      var r := SendOne(s, ts[k - 1], c, k == 1, faults[k - 1]);
      if r.ok {
        BatchRecordsIff(r.s, ts, c, faults, k - 1);
      }
    }
  }

  /** Over any run, what is remembered and where the bookmark is follow from the book before
      and the deliveries alone: a Tweet is remembered if and only if it was before or a send
      of it went through while it was wanted, and nothing is forgotten. */
  lemma {:induction false} RunRecordsIff(s: State, es: seq<Event>)
    requires forall k :: 0 <= k < |es| ==> Legal(es[k])
    ensures BookOf(Run(s, es)) == EnteredRun(BookOf(s), es)
  {
    if es != [] {
      var init, e := es[..|es| - 1], es[|es| - 1];
      RunRecordsIff(s, init);
      match e {
        case Streamed(t, c, fault) => SendRecordsIff(Run(s, init), t, c, true, fault);
        case Listed(ts, c, faults) => BatchRecordsIff(Run(s, init), ts, c, faults, |ts|);
        case Retweeted(_, _) =>
      }
    }
  }

  /** Every posted Tweet at or below the bookmark is handled: what a restart, which asks only
      above the bookmark, relies on. */
  ghost predicate Covers(s: State, posted: seq<Tweet>, c: Config) {
    forall t :: t in posted && t.id <= s.lastTweet ==> Handled(s, t, c)
  }

  /** At every point of every run the bookmark can be relied on if and only if, by the book
      that the deliveries make, each wanted Tweet at or below the mark is among the ids: none
      of them is still undelivered, and none was delivered only in sends that do not go
      through or that an earlier such send cut off. */
  lemma BookmarkCoversIff(s: State, es: seq<Event>, posted: seq<Tweet>, c: Config)
    requires forall k :: 0 <= k < |es| ==> Legal(es[k])
    ensures
      var b := EnteredRun(BookOf(s), es);
      Covers(Run(s, es), posted, c) <==>
      forall i :: 0 <= i < |posted| && Wanted(posted[i], c) && posted[i].id <= b.mark ==> posted[i].id in b.ids
  {
    RunRecordsIff(s, es);
    assert forall i :: 0 <= i < |posted| ==> posted[i] in posted;
  }

  // ---- The backfill, newest page first -----------------------------------------------

  /** Nothing fails: no fault, and every outbox has a token. */
  ghost predicate Sound(ts: seq<Tweet>, c: Config) {
    forall t :: t in ts ==> forall u :: u in Routed(c, t) ==> u in c.tokens
  }

  ghost predicate NewestFirst(ts: seq<Tweet>) {
    forall i, j :: 0 <= i < j < |ts| ==> ts[i].id > ts[j].id
  }

  function NoFaults(n: nat): (faults: seq<Fault>)
    ensures |faults| == n && forall i :: 0 <= i < n ==> faults[i] == NoFault
  {
    seq(n, i => NoFault)
  }

  function WantedIds(ts: seq<Tweet>, c: Config): set<int> {
    set t | t in ts && Wanted(t, c) :: t.id
  }

  lemma WantedIdsConcat(a: seq<Tweet>, b: seq<Tweet>, c: Config)
    ensures WantedIds(a + b, c) == WantedIds(a, c) + WantedIds(b, c)
  {
    assert forall t :: t in a + b <==> t in a || t in b;
  }

  lemma WantedIdsOfOne(t: Tweet, c: Config)
    ensures WantedIds([t], c) == WantedId(t, c)
  {
  }

  lemma WantedIdsUpTo(ts: seq<Tweet>, c: Config, k: nat)
    requires 0 < k <= |ts|
    ensures WantedIds(ts[..k], c) == WantedIds(ts[..k - 1], c) + WantedId(ts[k - 1], c)
  {
    assert ts[..k] == ts[..k - 1] + [ts[k - 1]];
    WantedIdsConcat(ts[..k - 1], [ts[k - 1]], c);
    WantedIdsOfOne(ts[k - 1], c);
  }

  lemma SoundSends(s: State, t: Tweet, c: Config, update: bool)
    requires forall u :: u in Routed(c, t) ==> u in c.tokens
    ensures SendOne(s, t, c, update, NoFault).ok
    ensures SendOne(s, t, c, update, NoFault).s.tweets.Keys == s.tweets.Keys + WantedId(t, c)
  {
    SendRecordsIff(s, t, c, update, NoFault);
  }

  lemma {:induction false} SoundBatch(s: State, ts: seq<Tweet>, c: Config, k: nat)
    requires k <= |ts| && Sound(ts, c)
    ensures
      var r := SendBatch(s, ts, c, NoFaults(|ts|), k);
      r.ok && r.s.tweets.Keys == s.tweets.Keys + WantedIds(ts[..k], c)
    decreases k
  {
    if k == 0 {
      assert ts[..0] == [];
    } else {
      var t := ts[k - 1];
      SoundSends(s, t, c, k == 1);
      SoundBatch(SendOne(s, t, c, k == 1, NoFault).s, ts, c, k - 1);
      WantedIdsUpTo(ts, c, k);
    }
  }

  /** A page without faults moves the bookmark to its newest Tweet if that is new and above. */
  lemma {:induction false} SoundBookmark(s: State, ts: seq<Tweet>, c: Config, k: nat)
    requires 0 < k <= |ts| && Sound(ts, c) && NewestFirst(ts)
    ensures
      SendBatch(s, ts, c, NoFaults(|ts|), k).s.lastTweet ==
      if ts[0].id !in s.tweets && s.lastTweet < ts[0].id then ts[0].id else s.lastTweet
    decreases k
  {
    var t := ts[k - 1];
    var s' := SendOne(s, t, c, k == 1, NoFault).s;
    SoundSends(s, t, c, k == 1);
    if k > 1 {
      SendingHandles(s, t, c, false, NoFault);
      assert ts[0].id > t.id;
      SoundBookmark(s', ts, c, k - 1);
    }
  }

  ghost predicate Faultless(e: Event) {
    match e
    case Streamed(t, c, fault) => fault == NoFault && Sound([t], c)
    case Listed(ts, c, faults) => faults == NoFaults(|ts|) && Sound(ts, c)
    case Retweeted(_, _) => true
  }

  function WantedOf(e: Event): set<int> {
    match e
    case Streamed(t, c, _) => WantedId(t, c)
    case Listed(ts, c, _) => WantedIds(ts, c)
    case Retweeted(_, _) => {}
  }

  /** The ids of all that was delivered and wanted. */
  function DeliveredIds(es: seq<Event>): set<int> {
    if es == [] then {} else DeliveredIds(es[..|es| - 1]) + WantedOf(es[|es| - 1])
  }

  lemma FaultlessEvent(s: State, e: Event)
    requires Legal(e) && Faultless(e)
    ensures Step(s, e).tweets.Keys == s.tweets.Keys + WantedOf(e)
  {
    match e {
      case Streamed(t, c, _) =>
        assert t in [t];
        SoundSends(s, t, c, true);
      case Listed(ts, c, _) =>
        SoundBatch(s, ts, c, |ts|);
        assert ts[..|ts|] == ts;
      case Retweeted(_, _) =>
    }
  }

  lemma {:induction false} FaultlessRun(s: State, es: seq<Event>)
    requires forall k :: 0 <= k < |es| ==> Legal(es[k]) && Faultless(es[k])
    ensures Run(s, es).tweets.Keys == s.tweets.Keys + DeliveredIds(es)
  {
    if es != [] {
      FaultlessRun(s, es[..|es| - 1]);
      FaultlessEvent(Run(s, es[..|es| - 1]), es[|es| - 1]);
    }
  }

  /** As long as nothing fails, the bookmark can be relied on if and only if no wanted Tweet
      at or below it is still undelivered. */
  lemma FaultlessCoversIff(s: State, es: seq<Event>, posted: seq<Tweet>, c: Config)
    requires forall k :: 0 <= k < |es| ==> Legal(es[k]) && Faultless(es[k])
    ensures
      var mark := EnteredRun(BookOf(s), es).mark;
      Covers(Run(s, es), posted, c) <==>
      forall i :: 0 <= i < |posted| && Wanted(posted[i], c) && posted[i].id <= mark ==>
        posted[i].id in s.tweets || posted[i].id in DeliveredIds(es)
  {
    BookmarkCoversIff(s, es, posted, c);
    RunRecordsIff(s, es);
    FaultlessRun(s, es);
  }

  function PageEvents(pages: seq<seq<Tweet>>, c: Config): (es: seq<Event>)
    ensures |es| == |pages| && forall k :: 0 <= k < |es| ==> es[k] == Listed(pages[k], c, NoFaults(|pages[k]|))
  {
    seq(|pages|, k requires 0 <= k < |pages| => Listed(pages[k], c, NoFaults(|pages[k]|)))
  }

  function Joined(pages: seq<seq<Tweet>>): seq<Tweet> {
    if pages == [] then [] else Joined(pages[..|pages| - 1]) + pages[|pages| - 1]
  }

  /** After the pages, delivered one by one without a fault. */
  function AfterPages(s: State, pages: seq<seq<Tweet>>, c: Config): State {
    Run(s, PageEvents(pages, c))
  }

  lemma AfterLastPage(s: State, pages: seq<seq<Tweet>>, c: Config)
    requires pages != []
    ensures
      var page := pages[|pages| - 1];
      AfterPages(s, pages, c) ==
      SendBatch(AfterPages(s, pages[..|pages| - 1], c), page, c, NoFaults(|page|), |page|).s
  {
    assert PageEvents(pages, c)[..|pages| - 1] == PageEvents(pages[..|pages| - 1], c);
  }

  lemma {:induction false} PagesRecord(s: State, pages: seq<seq<Tweet>>, c: Config)
    requires Sound(Joined(pages), c)
    ensures AfterPages(s, pages, c).tweets.Keys == s.tweets.Keys + WantedIds(Joined(pages), c)
  {
    if pages == [] {
      assert PageEvents(pages, c) == [];
    } else {
      var init, page := pages[..|pages| - 1], pages[|pages| - 1];
      SoundParts(Joined(init), page, c);
      PagesRecord(s, init, c);
      AfterLastPage(s, pages, c);
      SoundBatch(AfterPages(s, init, c), page, c, |page|);
      assert page[..|page|] == page;
      WantedIdsConcat(Joined(init), page, c);
    }
  }

  lemma NewestFirstParts(a: seq<Tweet>, b: seq<Tweet>)
    requires NewestFirst(a + b)
    ensures NewestFirst(a) && NewestFirst(b)
    ensures forall t, u :: t in a && u in b ==> u.id < t.id
  {
    forall i, j | 0 <= i < j < |a|
      ensures a[i].id > a[j].id
    {
      assert (a + b)[i] == a[i] && (a + b)[j] == a[j];
    }
    forall i, j | 0 <= i < j < |b|
      ensures b[i].id > b[j].id
    {
      assert (a + b)[|a| + i] == b[i] && (a + b)[|a| + j] == b[j];
    }
    forall t, u | t in a && u in b
      ensures u.id < t.id
    {
      var i :| 0 <= i < |a| && a[i] == t;
      var j :| 0 <= j < |b| && b[j] == u;
      assert (a + b)[i] == t && (a + b)[|a| + j] == u;
    }
  }

  lemma SoundParts(a: seq<Tweet>, b: seq<Tweet>, c: Config)
    requires Sound(a + b, c)
    ensures Sound(a, c) && Sound(b, c)
  {
    assert forall t :: t in a || t in b ==> t in a + b;
  }

  ghost predicate NoneEmpty(pages: seq<seq<Tweet>>) {
    forall i :: 0 <= i < |pages| ==> pages[i] != []
  }

  /** Nothing of `ts` with an id up to `max` is wanted and not remembered. */
  ghost predicate Remembered(s: State, ts: seq<Tweet>, c: Config, max: int) {
    forall i :: 0 <= i < |ts| && Wanted(ts[i], c) && ts[i].id <= max ==> ts[i].id in s.tweets
  }

  lemma RememberedParts(s: State, a: seq<Tweet>, b: seq<Tweet>, c: Config, max: int)
    ensures Remembered(s, a + b, c, max) <==> Remembered(s, a, c, max) && Remembered(s, b, c, max)
  {
    assert forall i :: 0 <= i < |a| ==> (a + b)[i] == a[i];
    assert forall i :: 0 <= i < |b| ==> (a + b)[|a| + i] == b[i];
  }

  lemma CoversIffRemembered(s: State, all: seq<Tweet>, c: Config)
    ensures Covers(s, all, c) <==> Remembered(s, all, c, s.lastTweet)
  {
    assert forall i :: 0 <= i < |all| ==> all[i] in all;
  }

  lemma RememberedSince(s: State, s': State, done: seq<Tweet>, rest: seq<Tweet>, c: Config, max: int)
    requires NewestFirst(done + rest) && s'.tweets.Keys == s.tweets.Keys + WantedIds(done, c)
    ensures Remembered(s', done, c, max) && (Remembered(s', rest, c, max) <==> Remembered(s, rest, c, max))
  {
    assert forall i :: 0 <= i < |done| ==> done[i] in done;
    NotAmong(done, rest, c);
  }

  /** Where the pages take the bookmark: to the newest Tweet of each page in turn, if that was
      not remembered before and is above. */
  function Mark(s: State, pages: seq<seq<Tweet>>): int
    requires NoneEmpty(pages)
  {
    if pages == [] then s.lastTweet
    else
      var mark, newest := Mark(s, pages[..|pages| - 1]), pages[|pages| - 1][0];
      if newest.id !in s.tweets && mark < newest.id then newest.id else mark
  }

  predicate IsNew(s: State, t: Tweet) {
    t.id !in s.tweets && s.lastTweet < t.id
  }

  lemma {:induction false} JoinedHas(pages: seq<seq<Tweet>>, k: nat)
    requires NoneEmpty(pages) && k < |pages|
    ensures pages[k][0] in Joined(pages)
  {
    if k < |pages| - 1 {
      JoinedHas(pages[..|pages| - 1], k);
    }
  }

  /** The mark is the newest of the pages' newest Tweets that is new, if any is: the first
      such page, the `k`-th, takes the bookmark there, and no page before or after moves it. */
  lemma {:induction false} MarkIsNewestNew(s: State, pages: seq<seq<Tweet>>, k: nat)
    requires NoneEmpty(pages) && NewestFirst(Joined(pages)) && k <= |pages|
    requires forall j :: 0 <= j < k ==> !IsNew(s, pages[j][0])
    requires k < |pages| ==> IsNew(s, pages[k][0])
    ensures Mark(s, pages) == if k < |pages| then pages[k][0].id else s.lastTweet
  {
    if pages != [] {
      var init, page := pages[..|pages| - 1], pages[|pages| - 1];
      NewestFirstParts(Joined(init), page);
      if k < |init| {
        MarkIsNewestNew(s, init, k);
        JoinedHas(init, k);
        assert page[0] in page;
      } else {
        MarkIsNewestNew(s, init, |init|);
      }
    }
  }

  lemma {:induction false} PagesMark(s: State, pages: seq<seq<Tweet>>, c: Config)
    requires NoneEmpty(pages) && Sound(Joined(pages), c) && NewestFirst(Joined(pages))
    ensures AfterPages(s, pages, c).lastTweet == Mark(s, pages)
  {
    if pages == [] {
      assert PageEvents(pages, c) == [];
    } else {
      var init, page := pages[..|pages| - 1], pages[|pages| - 1];
      NewestFirstParts(Joined(init), page);
      SoundParts(Joined(init), page, c);
      PagesMark(s, init, c);
      AfterLastPage(s, pages, c);
      SoundBookmark(AfterPages(s, init, c), page, c, |page|);
      PagesRecord(s, init, c);
      NotAmong(Joined(init), page, c);
    }
  }

  lemma NotAmong(done: seq<Tweet>, rest: seq<Tweet>, c: Config)
    requires NewestFirst(done + rest)
    ensures forall i :: 0 <= i < |rest| ==> rest[i].id !in WantedIds(done, c)
  {
    NewestFirstParts(done, rest);
    assert forall i :: 0 <= i < |rest| ==> rest[i] in rest;
  }

  lemma CoversTheRestIff(s: State, s': State, done: seq<Tweet>, rest: seq<Tweet>, c: Config)
    requires NewestFirst(done + rest) && s'.tweets.Keys == s.tweets.Keys + WantedIds(done, c)
    ensures Covers(s', done + rest, c) <==> Remembered(s, rest, c, s'.lastTweet)
  {
    CoversIffRemembered(s', done + rest, c);
    RememberedParts(s', done, rest, c, s'.lastTweet);
    RememberedSince(s, s', done, rest, c, s'.lastTweet);
  }

  /** A backfill hands over the newest page first, and each page moves the bookmark on its
      own. At each point the bookmark can be relied on if and only if no Tweet of the pages
      still to come is wanted, not remembered, and at or below the mark of those that came. */
  lemma BackfillCoversIff(s: State, pages: seq<seq<Tweet>>, rest: seq<Tweet>, c: Config)
    requires NoneEmpty(pages) && NewestFirst(Joined(pages) + rest) && Sound(Joined(pages), c)
    ensures AfterPages(s, pages, c).lastTweet == Mark(s, pages)
    ensures Covers(AfterPages(s, pages, c), Joined(pages) + rest, c) <==> Remembered(s, rest, c, Mark(s, pages))
  {
    NewestFirstParts(Joined(pages), rest);
    PagesRecord(s, pages, c);
    PagesMark(s, pages, c);
    CoversTheRestIff(s, AfterPages(s, pages, c), Joined(pages), rest, c);
  }

  /** If the newest Tweet is new, the first page takes the bookmark past all that is still to
      come: a kill or a failed request before the last page loses what is left. */
  lemma BackfillRunsAhead(s: State, pages: seq<seq<Tweet>>, rest: seq<Tweet>, c: Config)
    requires NewestFirst(Joined(pages) + rest) && Sound(Joined(pages), c)
    requires pages != [] && NoneEmpty(pages)
    requires pages[0][0].id !in s.tweets && s.lastTweet < pages[0][0].id
    ensures AfterPages(s, pages, c).lastTweet == pages[0][0].id
    ensures forall i :: 0 <= i < |rest| ==> rest[i].id < pages[0][0].id
  {
    var done := Joined(pages);
    NewestFirstParts(done, rest);
    PagesMark(s, pages, c);
    MarkIsNewestNew(s, pages, 0);
    JoinedHas(pages, 0);
    assert forall i :: 0 <= i < |rest| ==> rest[i] in rest;
  }

  function Plain(id: int): Tweet {
    Tweet(id, "text", 7, false)
  }

  const NEW_PAGE := [Plain(5), Plain(4)]
  const OLD_PAGE := [Plain(3), Plain(2)]

  /** Four Tweets in two pages, and no fault at all: killed between the pages, the program has
      lost the two older Tweets, and delivered both, it has lost none. */
  lemma BackfillCanBeCutShort()
    ensures
      var s, all := State(map[], 1, {}, []), NEW_PAGE + OLD_PAGE;
      && AfterPages(s, [NEW_PAGE], CONFIG).lastTweet == 5
      && !Covers(AfterPages(s, [NEW_PAGE], CONFIG), all, CONFIG)
      && Covers(AfterPages(s, [NEW_PAGE, OLD_PAGE], CONFIG), all, CONFIG)
  {
    var s := State(map[], 1, {}, []);
    SampleIsSound();
    SoundParts(NEW_PAGE, OLD_PAGE, CONFIG);
    JoinedTwo(NEW_PAGE, OLD_PAGE);
    BackfillCoversIff(s, [NEW_PAGE], OLD_PAGE, CONFIG);
    BackfillRunsAhead(s, [NEW_PAGE], OLD_PAGE, CONFIG);
    AllDelivered(s, [NEW_PAGE, OLD_PAGE], CONFIG);
    assert Wanted(OLD_PAGE[0], CONFIG);
  }

  lemma AllDelivered(s: State, pages: seq<seq<Tweet>>, c: Config)
    requires NoneEmpty(pages) && NewestFirst(Joined(pages)) && Sound(Joined(pages), c)
    ensures Covers(AfterPages(s, pages, c), Joined(pages), c)
  {
    assert Joined(pages) + [] == Joined(pages);
    BackfillCoversIff(s, pages, [], c);
  }

  lemma SampleIsSound()
    ensures NewestFirst(NEW_PAGE + OLD_PAGE) && Sound(NEW_PAGE + OLD_PAGE, CONFIG)
  {
    var all := NEW_PAGE + OLD_PAGE;
    assert all == [Plain(5), Plain(4), Plain(3), Plain(2)];
    forall t | t in all
      ensures Routed(CONFIG, t) == [1]
    {
      ConfigRoutes(t);
    }
  }

  lemma JoinedTwo(a: seq<Tweet>, b: seq<Tweet>)
    ensures Joined([a]) == a && Joined([a, b]) == a + b
  {
    assert [a][..0] == [] && [a, b][..1] == [a];
    assert Joined([a]) == [] + a;
  }

  // ---- The object --------------------------------------------------------------------

  class Sender {
    var tweets: map<int, Stored>
    var lastTweet: int
    var ongoing: set<(int, int)>
    var tasks: seq<Task>

    function View(): State
      reads this
    {
      State(tweets, lastTweet, ongoing, tasks)
    }

    /** Newest first; stops at the first error. */
    method SendTweets(ts: seq<Tweet>, c: Config, faults: seq<Fault>, ghost rules: seq<Rule>) returns (ok: bool)
      requires |ts| == |faults|
      modifies this
      ensures Result(View(), ok) == SendBatch(old(View()), ts, c, faults, |ts|)
    {
      for k := |ts| downto 0
        invariant SendBatch(View(), ts, c, faults, k) == SendBatch(old(View()), ts, c, faults, |ts|)
      {
        var sent := SendTweet(ts[k], c, k == 0, faults[k], rules);
        if !sent {
          return false;
        }
      }
      ok := true;
    }

    /** `rules` are those of the manifest, which the router indexes. */
    method SendTweet(t: Tweet, c: Config, updateLastTweet: bool, fault: Fault, ghost rules: seq<Rule>)
      returns (ok: bool)
      modifies this
      ensures Result(View(), ok) == SendOne(old(View()), t, c, updateLastTweet, fault)
      ensures Indexes(c.router, rules) ==> AddsTaskFor(old(tasks), tasks, t, rules)
    {
      TasksMean(View(), t, c, updateLastTweet, fault, rules);
      if fault == AtLookup {
        return false;
      }
      if t.id in tweets {
        return true;
      }
      if updateLastTweet {
        if fault == AtUpdate {
          return false;
        }
        if lastTweet < t.id {
          lastTweet := t.id;
        }
      }
      if t.isRetweet {
        return true;
      }
      if !c.skipDuplicate {
        ok := RetweetOne(t, c, None, fault);
        return;
      }
      if Routed(c, t) == [] {
        return true;
      }
      if fault == AtDuplicate {
        return false;
      }
      var duplicate := Latest(SameTweets(View(), t));
      ok := RetweetOne(t, c, duplicate, fault);
    }

    /** One transaction: a row for the Tweet, then a row for each of its outboxes. */
    method RetweetOne(t: Tweet, c: Config, duplicate: Option<int>, fault: Fault) returns (ok: bool)
      modifies this
      ensures Result(View(), ok) == FinishRetweet(old(View()), t, c, duplicate, fault)
    {
      if fault == AtRetweet {
        return false;
      }
      var saved := (tweets, ongoing);
      tweets := tweets[t.id := Stored(t.text, t.user)];
      var users := Routed(c, t);
      for i := 0 to |users|
        invariant tweets == old(tweets)[t.id := Stored(t.text, t.user)]
        invariant lastTweet == old(lastTweet) && tasks == old(tasks)
        invariant forall u :: u in users[..i] ==> u in c.tokens
        invariant ongoing == old(ongoing) + (set u | u in users[..i] :: (t.id, u))
      {
        if users[i] !in c.tokens {
          tweets, ongoing := saved.0, saved.1;
          return false;
        }
        ongoing := ongoing + {(t.id, users[i])};
        assert users[..i + 1] == users[..i] + [users[i]];
      }
      assert users[..|users|] == users;
      tasks := tasks + [Task(t.id, users, duplicate)];
      ok := true;
    }
  }
}
