/** Replacement of the manifest of a running program, as a transaction that is rolled back on
    error and on cancellation. */
module App {
  import opened Basics
  import opened Router
  import Dispatch

  datatype ListConfig = ListConfig(id: nat)
  datatype TwitterConfig = TwitterConfig(client: string, user: int, stream: bool, list: Option<ListConfig>)
  datatype Manifest = Manifest(
    databaseUrl: Option<string>,
    rules: seq<Rule>,
    twitter: Option<TwitterConfig>)

  /** What the outside world does during one replacement: where the database is by default,
      which pools open and which connections they yield, the rows of `twitter_tokens` in each
      database, and how connecting to the stream ends. */
  datatype Init = Connects | Refuses | Cancelled
  datatype World = World(
    defaultUrl: string,
    opens: string -> bool,
    rows: string -> map<int, string>,
    tokensReadable: bool,
    stream: Init,
    lastTweetUsable: bool,
    subscriptionsReadable: bool)

  datatype Error = InvalidManifest | PoolError | TokenError | StreamError | ListError | SyncError
  /** How the fallible part of a replacement ends. */
  datatype Ending = Finished | Failed(error: Error) | Abandoned
  datatype Outcome = Replaced(old_: Manifest) | Rejected(error: Error, manifest: Manifest) | Dropped

  // ---- Manifests ---------------------------------------------------------------------

  function Elements(topics: seq<TopicId>): set<TopicId> {
    set t | t in topics
  }

  function TopicsOf(rules: seq<Rule>): set<TopicId> {
    if rules == [] then {} else TopicsOf(rules[..|rules| - 1]) + Elements(rules[|rules| - 1].topics)
  }

  function TwitterTopics(m: Manifest): set<TopicId> {
    set t | t in TopicsOf(m.rules) && t.Twitter?
  }

  function OutboxUsers(rules: seq<Rule>): set<int> {
    if rules == [] then {}
    else OutboxUsers(rules[..|rules| - 1]) + set o | o in rules[|rules| - 1].route.outbox :: o.user
  }

  predicate ValidManifest(m: Manifest) {
    m.twitter == None ==> TwitterTopics(m) == {} && OutboxUsers(m.rules) == {}
  }

  /** The users as whom the program acts: those of the outboxes, and that of the API. */
  function Users(m: Manifest): set<int> {
    if m.twitter == None then {} else OutboxUsers(m.rules) + {m.twitter.value.user}
  }

  function UrlOf(m: Manifest, w: World): string {
    if m.databaseUrl.Some? then m.databaseUrl.value else w.defaultUrl
  }

  predicate HasUpdates(old_: Manifest, new_: Manifest) {
    && new_.twitter.Some?
    && ((old_.twitter == None
         || new_.twitter.value.client != old_.twitter.value.client
         || new_.twitter.value.user != old_.twitter.value.user)
        || !(TwitterTopics(new_) <= TopicsOf(old_.rules))
        || !(TwitterTopics(old_) <= TopicsOf(new_.rules)))
  }

  /** A topic is listed if some rule lists it, and a user is sent to if some rule has an outbox
      of the user. */
  lemma {:induction false} ListedIff(rules: seq<Rule>, topic: TopicId, user: int)
    ensures topic in TopicsOf(rules) <==> exists i :: 0 <= i < |rules| && topic in rules[i].topics
    ensures user in OutboxUsers(rules) <==>
      exists i :: 0 <= i < |rules| && TwitterOutbox(user) in rules[i].route.outbox
  {
    if rules != [] {
      var init, rule := rules[..|rules| - 1], rules[|rules| - 1];
      ListedIff(init, topic, user);
      assert forall o :: o in rule.route.outbox ==> o == TwitterOutbox(o.user);
      assert rules[|init|] == rule && forall i :: 0 <= i < |init| ==> rules[i] == init[i];
    }
  }

  /** A manifest is invalid exactly if it has no Twitter section although some rule listens or
      sends to a user. */
  lemma InvalidIff(m: Manifest)
    ensures !ValidManifest(m) <==>
      && m.twitter == None
      && exists i :: 0 <= i < |m.rules| &&
           (m.rules[i].route.outbox != [] || exists user :: Twitter(user) in m.rules[i].topics)
  {
    forall i | 0 <= i < |m.rules| && m.rules[i].route.outbox != []
      ensures OutboxUsers(m.rules) != {}
    {
      var o := m.rules[i].route.outbox[0];
      assert o == TwitterOutbox(o.user) && o in m.rules[i].route.outbox;
      ListedIff(m.rules, Feed(""), o.user);
    }
    forall i, user | 0 <= i < |m.rules| && Twitter(user) in m.rules[i].topics
      ensures TwitterTopics(m) != {}
    {
      ListedIff(m.rules, Twitter(user), 0);
      assert Twitter(user) in TwitterTopics(m);
    }
    SomethingIsListed(m);
  }

  lemma SomethingIsListed(m: Manifest)
    ensures OutboxUsers(m.rules) != {} ==> exists i :: 0 <= i < |m.rules| && m.rules[i].route.outbox != []
    ensures TwitterTopics(m) != {} ==>
      exists i, user :: 0 <= i < |m.rules| && Twitter(user) in m.rules[i].topics
  {
    if OutboxUsers(m.rules) != {} {
      var user := MemberOf(OutboxUsers(m.rules));
      ListedIff(m.rules, Feed(""), user);
    }
    if t :| t in TwitterTopics(m) {
      ListedIff(m.rules, t, 0);
      assert t == Twitter(t.user);
    } else {
      assert TwitterTopics(m) == {};
    }
  }

  /** The program acts as the users of the outboxes and of the API. */
  lemma UsersIff(m: Manifest, user: int)
    ensures user in Users(m) <==>
      && m.twitter.Some?
      && (user == m.twitter.value.user
          || exists i :: 0 <= i < |m.rules| && TwitterOutbox(user) in m.rules[i].route.outbox)
  {
    ListedIff(m.rules, Feed(""), user);
  }

  ghost predicate ListensTo(m: Manifest, user: int) {
    exists i :: 0 <= i < |m.rules| && Twitter(user) in m.rules[i].topics
  }

  lemma ListensToIff(m: Manifest, user: int)
    ensures ListensTo(m, user) <==> Twitter(user) in TwitterTopics(m)
  {
    ListedIff(m.rules, Twitter(user), 0);
  }

  lemma SameTwitterTopicsIff(a: Manifest, b: Manifest)
    ensures TwitterTopics(a) == TwitterTopics(b) <==> forall user :: ListensTo(a, user) <==> ListensTo(b, user)
  {
    forall user
      ensures ListensTo(a, user) <==> Twitter(user) in TwitterTopics(a)
      ensures ListensTo(b, user) <==> Twitter(user) in TwitterTopics(b)
    {
      ListensToIff(a, user);
      ListensToIff(b, user);
    }
    if forall user :: ListensTo(a, user) <==> ListensTo(b, user) {
      forall t
        ensures t in TwitterTopics(a) <==> t in TwitterTopics(b)
      {
        if t.Twitter? {
          ListensToIff(a, t.user);
          ListensToIff(b, t.user);
          assert t == Twitter(t.user);
        }
      }
    }
  }

  /** The streams are kept exactly when the new manifest has no Twitter section, or names the
      same client and user and listens to the same users: `stream` and `list` have no say. */
  lemma StreamsAreKeptIff(old_: Manifest, new_: Manifest)
    ensures !HasUpdates(old_, new_) <==>
      new_.twitter == None
      || (&& old_.twitter.Some?
          && new_.twitter.value.client == old_.twitter.value.client
          && new_.twitter.value.user == old_.twitter.value.user
          && forall user :: ListensTo(new_, user) <==> ListensTo(old_, user))
  {
    Within(new_, old_);
    Within(old_, new_);
    SameTwitterTopicsIff(new_, old_);
  }

  lemma Within(a: Manifest, b: Manifest)
    ensures TwitterTopics(a) <= TopicsOf(b.rules) <==> TwitterTopics(a) <= TwitterTopics(b)
  {
    if TwitterTopics(a) <= TopicsOf(b.rules) {
      forall t | t in TwitterTopics(a)
        ensures t in TwitterTopics(b)
      {
        assert t.Twitter?;
      }
    }
  }

  /** The rows of the users asked for are all of them if there are as many. */
  lemma AsManyMeansAll(wanted: set<int>, found: set<int>)
    requires found <= wanted && |found| == |wanted|
    ensures found == wanted
  {
    forall x | x in wanted
      ensures x in found
    {
      if x !in found {
        FewerIfMissing(found, wanted, x);
      }
    }
  }

  lemma FewerIfMissing(found: set<int>, wanted: set<int>, x: int)
    requires found <= wanted && x in wanted && x !in found
    ensures |found| < |wanted|
  {
    assert found <= wanted - {x};
    SubsetIsSmaller(found, wanted - {x});
  }

  lemma {:induction false} SubsetIsSmaller(a: set<int>, b: set<int>)
    requires a <= b
    ensures |a| <= |b|
  {
    if a != {} {
      var x := MemberOf(a);
      SubsetIsSmaller(a - {x}, b - {x});
    }
  }

  /** Adding the rows found for the users without a token. */
  lemma Extended(tokens: map<int, string>, users: set<int>, rows: map<int, string>, found: map<int, string>)
    requires found == map u | u in users - tokens.Keys && u in rows :: rows[u]
    requires users - tokens.Keys <= rows.Keys
    ensures (tokens + found).Keys == tokens.Keys + users
    ensures forall u :: u in tokens ==> (tokens + found)[u] == tokens[u]
    ensures forall u :: u in users && u !in tokens ==> (tokens + found)[u] == rows[u]
  {
  }

  lemma CountTellsWhetherAll(wanted: set<int>, rows: map<int, string>, found: map<int, string>)
    requires found == map u | u in wanted && u in rows :: rows[u]
    ensures |wanted| == |found| <==> wanted <= rows.Keys
    ensures |wanted| == |found| ==> found.Keys == wanted
  {
    assert |found.Keys| == |found|;
    if |wanted| == |found| {
      AsManyMeansAll(wanted, found.Keys);
    }
    if wanted <= rows.Keys {
      assert found.Keys == wanted;
    }
  }

  /** How the fallible part of a replacement ends, when the pool connects to `pool` and the
      tokens of `known` are loaded. */
  function Fate(old_: Manifest, new_: Manifest, pool: string, known: set<int>, websub: bool, w: World): Ending {
    var updates := HasUpdates(old_, new_);
    if new_.twitter.Some? && !(w.tokensReadable && Users(new_) - known <= w.rows(pool).Keys) then Failed(TokenError)
    else if updates && new_.twitter.value.stream && w.stream == Cancelled then Abandoned
    else if updates && new_.twitter.value.stream && w.stream == Refuses then Failed(StreamError)
    else if updates && new_.twitter.value.list.Some? && !w.lastTweetUsable then Failed(ListError)
    else if websub && !w.subscriptionsReadable then Failed(SyncError)
    else Finished
  }

  lemma {:induction false} RuleUsers(route: Route, topics: seq<TopicId>, topic: TopicId, allows: Route -> bool)
    ensures forall o :: o in ScanRule(route, topics, topic, allows) ==> o in route.outbox
  {
    if topics != [] {
      RuleUsers(route, topics[..|topics| - 1], topic, allows);
    }
  }

  lemma {:induction false} ScannedUsers(rules: seq<Rule>, topic: TopicId, allows: Route -> bool)
    ensures forall o :: o in Scan(rules, topic, allows) ==> o.user in OutboxUsers(rules)
  {
    if rules != [] {
      var rule := rules[|rules| - 1];
      ScannedUsers(rules[..|rules| - 1], topic, allows);
      RuleUsers(rule.route, rule.topics, topic, allows);
    }
  }

  /** A failure that does not put everything back: the new manifest adds a
      Twitter user to follow, the streams are reopened for it, and then the database cannot
      be read. */
  lemma StreamsCanFollowARejectedManifest(w: World)
    requires w.stream == Connects && w.tokensReadable && w.lastTweetUsable && !w.subscriptionsReadable
    ensures
      var twitter := TwitterConfig("client", 1, true, None);
      var old_ := Manifest(None, [], Some(twitter));
      var new_ := Manifest(None, [Rule(Route(None, None, []), [Twitter(2)])], Some(twitter));
      && ValidManifest(old_) && ValidManifest(new_) && HasUpdates(old_, new_)
      && Fate(old_, new_, w.defaultUrl, {1}, true, w) == Failed(SyncError)
  {
    var rules := [Rule(Route(None, None, []), [Twitter(2)])];
    assert rules[..0] == [];
    assert Twitter(2) in Elements(rules[0].topics);
    assert TopicsOf(rules) == {Twitter(2)};
    assert OutboxUsers(rules) == {};
    assert Twitter(2) in TwitterTopics(Manifest(None, rules, Some(TwitterConfig("client", 1, true, None))));
  }

  /** Every user has a token, in memory or in a readable row. */
  predicate TokensAreThere(m: Manifest, pool: string, known: set<int>, w: World) {
    m.twitter.Some? ==> w.tokensReadable && forall u :: u in Users(m) ==> u in known || u in w.rows(pool)
  }

  lemma TokensAreThereIff(users: set<int>, known: set<int>, rows: map<int, string>)
    ensures users - known <= rows.Keys <==> forall u :: u in users ==> u in known || u in rows
  {
    if users - known <= rows.Keys {
      forall u | u in users
        ensures u in known || u in rows
      {
        assert u in known || u in users - known;
      }
    }
    if forall u :: u in users ==> u in known || u in rows {
      forall u | u in users - known
        ensures u in rows.Keys
      {
        assert u in users;
      }
    }
  }

  /** What has to go well, and in which order things can go wrong. */
  lemma FateIff(old_: Manifest, new_: Manifest, pool: string, known: set<int>, websub: bool, w: World)
    ensures
      var fate, tokens := Fate(old_, new_, pool, known, websub, w), TokensAreThere(new_, pool, known, w);
      var streams := HasUpdates(old_, new_) && new_.twitter.value.stream;
      var lists := HasUpdates(old_, new_) && new_.twitter.value.list.Some?;
      && (fate == Finished <==>
            && tokens && (streams ==> w.stream == Connects) && (lists ==> w.lastTweetUsable)
            && (websub ==> w.subscriptionsReadable))
      && (fate == Failed(TokenError) <==> !tokens)
      && (fate == Abandoned <==> tokens && streams && w.stream == Cancelled)
      && (fate == Failed(StreamError) <==> tokens && streams && w.stream == Refuses)
      && (fate == Failed(ListError) <==> tokens && (streams ==> w.stream == Connects) && lists && !w.lastTweetUsable)
  {
    TokensAreThereIff(Users(new_), known, w.rows(pool));
  }

  /** After a replacement every user has a row in the database of the pool if and only if those
      whose tokens were already in memory have: nobody looks for theirs. */
  lemma RowsAfterReplacementIff(old_: Manifest, new_: Manifest, pool: string, known: set<int>, websub: bool, w: World)
    requires Fate(old_, new_, pool, known, websub, w) == Finished
    ensures Users(new_) <= w.rows(pool).Keys <==> Users(new_) * known <= w.rows(pool).Keys
  {
    if new_.twitter.Some? && Users(new_) * known <= w.rows(pool).Keys {
      forall u | u in Users(new_)
        ensures u in w.rows(pool)
      {
        assert u in known ==> u in Users(new_) * known;
        assert u !in known ==> u in Users(new_) - known;
      }
    }
  }

  lemma OneRule(rule: Rule)
    ensures OutboxUsers([rule]) == set o | o in rule.route.outbox :: o.user
    ensures RoutesFor([rule], Twitter(7)) == ListedIn(rule.route, rule.topics, Twitter(7))
  {
    assert [rule][..0] == [];
  }

  /** A manifest that differs in the database only, which has no token rows yet: user 1, whose
      token is in memory, replaces it without an error, and then no retweet of user 7's
      Tweets can be recorded, as `ongoing_retweets` refers to the missing row. */
  lemma ReplacementCanLoseTokenRows(w: World, index: Index, s: Dispatch.State, t: Tweet)
    requires w.tokensReadable && w.rows("new") == map[] && t.user == 7
    requires Indexes(index, [Rule(Route(None, None, [TwitterOutbox(1)]), [Twitter(7)])])
    ensures
      var twitter := Some(TwitterConfig("client", 1, true, None));
      var rules := [Rule(Route(None, None, [TwitterOutbox(1)]), [Twitter(7)])];
      var old_, new_ := Manifest(Some("old"), rules, twitter), Manifest(Some("new"), rules, twitter);
      && ValidManifest(new_) && Users(new_) == {1} && UrlOf(new_, w) == "new"
      && Fate(old_, new_, "new", {1}, false, w) == Finished
      && !(Users(new_) <= w.rows("new").Keys)
      && Dispatch.Retweet(s, t, Dispatch.Config(false, index, w.rows("new").Keys), None) == None
  {
    var route := Route(None, None, [TwitterOutbox(1)]);
    var rule := Rule(route, [Twitter(7)]);
    OneRule(rule);
    assert TwitterOutbox(1) in route.outbox;
    assert OutboxUsers([rule]) == {1};
    assert [Twitter(7)][..0] == [] && ListedIn(route, [Twitter(7)], Twitter(7)) == [] + [route];
    assert Get(index, Twitter(7)) == RoutesFor([rule], Twitter(7)) == [route];
    var c := Dispatch.Config(false, index, w.rows("new").Keys);
    var allows := (r: Route) => AllowsTweet(r, t);
    assert [route][..0] == [] && Outboxes([route], allows) == [] + route.outbox;
    assert Dispatch.Routed(c, t)[0] == 1;
  }

  // ---- The program -------------------------------------------------------------------

  class App {
    var manifest: Manifest
    /** The database that the pool connects to. */
    var pool: string
    var router: Index
    var tokens: map<int, string>
    /** The database of the WebSub subscriber, if one runs: it is given a clone of the pool
        once, and not by a new manifest. */
    const websub: Option<string>
    /** The manifest that the stream and the list timeline were opened under. */
    var streams: Manifest

    ghost predicate Valid()
      reads this
    {
      && ValidManifest(manifest)
      && Users(manifest) <= tokens.Keys
      && Indexes(router, manifest.rules)
    }

    /** The subscriber works on the database that the rest of the program reads. */
    predicate SubscriberFollows()
      reads this
    {
      websub == None || websub.value == pool
    }

    /** No token is ever missing when something is sent: each outbox that a topic is routed to
        has one, and so has the API user whenever there is such an outbox. */
    lemma RoutedUsersHaveTokens(topic: TopicId, allows: Route -> bool)
      requires Valid()
      ensures forall o :: o in Outboxes(Get(router, topic), allows) ==>
        manifest.twitter.Some? && o.user in tokens && manifest.twitter.value.user in tokens
    {
      RoutedUsers(topic, allows);
    }

    /** With a row for every user, no retweet of whatever is delivered fails for want of one. */
    lemma RowsMakeRetweetsSound(ts: seq<Tweet>, skipDuplicate: bool, rows: set<int>)
      requires Valid() && Users(manifest) <= rows
      ensures Dispatch.Sound(ts, Dispatch.Config(skipDuplicate, router, rows))
    {
      var c := Dispatch.Config(skipDuplicate, router, rows);
      forall t, u | t in ts && u in Dispatch.Routed(c, t)
        ensures u in rows
      {
        RoutedUsers(Twitter(t.user), r => AllowsTweet(r, t));
      }
    }

    lemma RoutedUsers(topic: TopicId, allows: Route -> bool)
      requires Valid()
      ensures forall o :: o in Outboxes(Get(router, topic), allows) ==>
        manifest.twitter.Some? && o.user in Users(manifest)
    {
      IndexAgreesWithScan(manifest.rules, topic, allows);
      ScannedUsers(manifest.rules, topic, allows);
    }

    /** The state that `Core::new` builds before it loads the tokens. */
    constructor Unready(m: Manifest, url: string, websub: bool)
      ensures manifest == m && pool == url && tokens == map[] && streams == m
      ensures this.websub == if websub then Some(url) else None
      ensures Indexes(router, m.rules)
    {
      manifest, pool, tokens, streams := m, url, map[], m;
      this.websub := if websub then Some(url) else None;
      router := map[];
      new;
      var built := new Router.FromManifest(m.rules);
      router := built.index;
    }

    /** A program starts only if its manifest is valid, its database opens, and every user it
        acts as has a token there. */
    static method New(m: Manifest, websub: bool, w: World) returns (r: Option<App>)
      ensures r.Some? <==>
        && ValidManifest(m) && w.opens(UrlOf(m, w)) && w.lastTweetUsable
        && (m.twitter.Some? ==> w.tokensReadable && Users(m) <= w.rows(UrlOf(m, w)).Keys)
      ensures r.Some? ==>
        && fresh(r.value) && r.value.Valid()
        && r.value.manifest == m && r.value.pool == UrlOf(m, w)
        && r.value.pool == (if m.databaseUrl == None then w.defaultUrl else m.databaseUrl.value)
        && r.value.tokens.Keys == Users(m) && r.value.SubscriberFollows()
        && (r.value.websub.Some? <==> websub)
    {
      if !ValidManifest(m) || !w.opens(UrlOf(m, w)) || !w.lastTweetUsable {
        return None;
      }
      var app := new App.Unready(m, UrlOf(m, w), websub);
      var loaded := app.LoadTwitterTokens(w);
      r := if loaded then Some(app) else None;
    }

    method LoadTwitterTokens(w: World) returns (ok: bool)
      modifies `tokens
      ensures ok <==>
        || manifest.twitter == None
        || (w.tokensReadable && Users(manifest) - old(tokens).Keys <= w.rows(pool).Keys)
      ensures !ok || manifest.twitter == None ==> tokens == old(tokens)
      ensures ok && manifest.twitter.Some? ==>
        && tokens.Keys == old(tokens).Keys + Users(manifest)
        && (forall u :: u in old(tokens) ==> tokens[u] == old(tokens)[u])
        && (forall u :: u in Users(manifest) && u !in old(tokens) ==> u in w.rows(pool) && tokens[u] == w.rows(pool)[u])
    {
      if manifest.twitter == None {
        return true;
      }
      var unauthed := Users(manifest) - tokens.Keys;
      if !w.tokensReadable {
        return false;
      }
      var rows := w.rows(pool);
      var found := map u | u in unauthed && u in rows :: rows[u];
      CountTellsWhetherAll(unauthed, rows, found);
      if |unauthed| != |found| {
        return false;
      }
      Extended(tokens, Users(manifest), rows, found);
      tokens := tokens + found;
      ok := true;
    }

    method GcTwitterTokens()
      modifies `tokens
      ensures tokens.Keys == old(tokens).Keys * Users(manifest)
      ensures forall u :: u in tokens ==> tokens[u] == old(tokens)[u]
    {
      if manifest.twitter == None {
        tokens := map[];
        return;
      }
      var users := Users(manifest);
      tokens := map u | u in tokens && u in users :: tokens[u];
    }

    /** The part of the replacement that may fail or be cancelled with the new manifest and
        pool in place. */
    method Apply(old_: Manifest, w: World) returns (r: Ending)
      modifies `tokens, `streams
      ensures old(tokens).Keys <= tokens.Keys
      ensures r == Fate(old_, manifest, pool, old(tokens).Keys, websub.Some?, w)
      ensures r == Finished ==> Users(manifest) <= tokens.Keys
      ensures r == Finished ==>
        forall u :: u in Users(manifest) ==>
          if u in old(tokens) then tokens[u] == old(tokens)[u]
          else u in w.rows(pool) && tokens[u] == w.rows(pool)[u]
      ensures r == Finished || r == Failed(SyncError) ==>
        streams == if HasUpdates(old_, manifest) then manifest else old(streams)
      ensures r != Finished && r != Failed(SyncError) ==> streams == old(streams)
    {
      var loaded := LoadTwitterTokens(w);
      if !loaded {
        return Failed(TokenError);
      }
      if HasUpdates(old_, manifest) {
        var config := manifest.twitter.value;
        if config.stream {
          assert config.user in tokens;
          match w.stream {
            case Cancelled => return Abandoned;
            case Refuses => return Failed(StreamError);
            case Connects =>
          }
        }
        if config.list.Some? && !w.lastTweetUsable {
          return Failed(ListError);
        }
        streams := manifest;
      }
      if websub.Some? && !w.subscriptionsReadable {
        return Failed(SyncError);
      }
      return Finished;
    }

    /** On success everything follows the new manifest; otherwise manifest, pool and router
        are as before. Whatever happens, every user the program acts as has a token. */
    method ReplaceManifest(new_: Manifest, w: World) returns (r: Outcome)
      requires Valid()
      modifies this
      ensures Valid()
      ensures
        var samePool := new_.databaseUrl == old(manifest).databaseUrl;
        var url := if samePool then old(pool) else UrlOf(new_, w);
        var fate := Fate(old(manifest), new_, url, old(tokens).Keys, websub.Some?, w);
        if !ValidManifest(new_) then r == Rejected(InvalidManifest, new_)
        else if !samePool && !w.opens(url) then r == Rejected(PoolError, new_)
        else if fate == Finished then r == Replaced(old(manifest))
        else r == if fate == Abandoned then Dropped else Rejected(fate.error, new_)
      ensures r.Replaced? ==>
        && r.old_ == old(manifest) && manifest == new_
        && pool == (if new_.databaseUrl == old(manifest).databaseUrl then old(pool) else UrlOf(new_, w))
        && (new_.databaseUrl != old(manifest).databaseUrl ==>
              pool == if new_.databaseUrl == None then w.defaultUrl else new_.databaseUrl.value)
        && tokens.Keys == Users(new_)
        && (forall u :: u in tokens ==>
              if u in old(tokens) then tokens[u] == old(tokens)[u]
              else u in w.rows(pool) && tokens[u] == w.rows(pool)[u])
        && streams == if HasUpdates(old(manifest), new_) then new_ else old(streams)
      ensures r.Replaced? ==>
        (Users(manifest) <= w.rows(pool).Keys <==> Users(manifest) * old(tokens).Keys <= w.rows(pool).Keys)
      ensures old(SubscriberFollows()) ==>
        (SubscriberFollows() <==>
         || websub == None || !r.Replaced? || new_.databaseUrl == old(manifest).databaseUrl
         || UrlOf(new_, w) == old(pool))
      ensures !r.Replaced? ==>
        && manifest == old(manifest) && pool == old(pool) && router == old(router)
        && old(tokens).Keys <= tokens.Keys
      ensures r.Rejected? && r.error == SyncError ==>
        streams == if HasUpdates(old(manifest), new_) then new_ else old(streams)
      ensures !r.Replaced? && !(r.Rejected? && r.error == SyncError) ==> streams == old(streams)
    {
      if !ValidManifest(new_) {
        return Rejected(InvalidManifest, new_);
      }
      var oldPool := None;
      if new_.databaseUrl != manifest.databaseUrl {
        var url := UrlOf(new_, w);
        if !w.opens(url) {
          return Rejected(PoolError, new_);
        }
        oldPool := Some(pool);
        pool := url;
      }
      var oldManifest := manifest;
      ghost var known := tokens.Keys;
      manifest := new_;

      var result := Apply(oldManifest, w);

      if result == Finished {
        RowsAfterReplacementIff(oldManifest, new_, pool, known, websub.Some?, w);
        Adopt();
        return Replaced(oldManifest);
      }
      Rollback(oldManifest, oldPool);
      r := if result == Abandoned then Dropped else Rejected(result.error, new_);
    }

    /** What follows the new manifest once nothing can fail any more. */
    method Adopt()
      modifies `tokens, `router
      ensures Indexes(router, manifest.rules)
      ensures tokens.Keys == old(tokens).Keys * Users(manifest)
      ensures forall u :: u in tokens ==> tokens[u] == old(tokens)[u]
    {
      GcTwitterTokens();
      var built := new Router.FromManifest(manifest.rules);
      router := built.index;
    }

    /** `Guard::rollback`, which is also what dropping the guard does. */
    method Rollback(oldManifest: Manifest, oldPool: Option<string>)
      modifies `manifest, `pool
      ensures manifest == oldManifest
      ensures pool == if oldPool.Some? then oldPool.value else old(pool)
    {
      if oldPool.Some? {
        pool := oldPool.value;
      }
      manifest := oldManifest;
    }
  }

  /** A program with a WebSub subscriber is given another database, and the subscriber stays
      on the old one. */
  method LeaveSubscriberBehind(w: World) returns (app: App)
    requires w.opens("old") && w.opens("new") && w.lastTweetUsable && w.subscriptionsReadable
    ensures app.Valid() && app.pool == "new" && app.websub == Some("old") && !app.SubscriberFollows()
  {
    var started := App.New(Manifest(Some("old"), [], None), true, w);
    app := started.value;
    assert OutboxUsers([]) == {} && TopicsOf([]) == {};
    var new_ := Manifest(Some("new"), [], None);
    assert ValidManifest(new_);
    var outcome := app.ReplaceManifest(new_, w);
  }
}
