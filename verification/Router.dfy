/** Routing of entries and Tweets to outboxes: an index from topics to routes, built from the
    rules of the manifest. */
module Router {
  import opened Basics

  datatype TopicId = Feed(url: string) | Twitter(user: int)

  /** A compiled regular expression, by what it matches. */
  datatype Regex = Regex(isMatch: string -> bool)
  datatype Filter = Filter(title: Regex, text: Option<Regex>)
  datatype Outbox = TwitterOutbox(user: int)
  datatype Route = Route(filter: Option<Filter>, exclude: Option<Filter>, outbox: seq<Outbox>)
  datatype Rule = Rule(route: Route, topics: seq<TopicId>)

  datatype Tweet = Tweet(id: int, text: string, user: int, isRetweet: bool)
  datatype Entry = Entry(title: Option<string>, content: Option<string>, summary: Option<string>)

  predicate MatchesTweet(f: Filter, t: Tweet) {
    f.title.isMatch(t.text) || (f.text.Some? && f.text.value.isMatch(t.text))
  }

  predicate MatchesEntry(f: Filter, e: Entry) {
    || (e.title.Some? && f.title.isMatch(e.title.value))
    || (f.text.Some? &&
        ((e.content.Some? && f.text.value.isMatch(e.content.value))
         || (e.summary.Some? && f.text.value.isMatch(e.summary.value))))
  }

  predicate AllowsTweet(r: Route, t: Tweet) {
    && (r.filter.Some? ==> MatchesTweet(r.filter.value, t))
    && (r.exclude.Some? ==> !MatchesTweet(r.exclude.value, t))
  }

  predicate AllowsEntry(r: Route, e: Entry) {
    && (r.filter.Some? ==> MatchesEntry(r.filter.value, e))
    && (r.exclude.Some? ==> !MatchesEntry(r.exclude.value, e))
  }

  // ---- The plain scan ----------------------------------------------------------------

  /** The outboxes of one rule, once for each time the rule lists the topic. */
  function ScanRule(route: Route, topics: seq<TopicId>, topic: TopicId, allows: Route -> bool): seq<Outbox> {
    if topics == [] then []
    else
      ScanRule(route, topics[..|topics| - 1], topic, allows)
      + if topics[|topics| - 1] == topic && allows(route) then route.outbox else []
  }

  function Scan(rules: seq<Rule>, topic: TopicId, allows: Route -> bool): seq<Outbox> {
    if rules == [] then []
    else
      var rule := rules[|rules| - 1];
      Scan(rules[..|rules| - 1], topic, allows) + ScanRule(rule.route, rule.topics, topic, allows)
  }

  // ---- Which rules take what ---------------------------------------------------------

  /** The rule lists the author, its filter, if any, matches the text by its title pattern or by
      its text pattern, and its exclude, if any, by neither. */
  predicate TakesTweet(rule: Rule, t: Tweet) {
    && Twitter(t.user) in rule.topics
    && (rule.route.filter.Some? ==>
          var f := rule.route.filter.value;
          f.title.isMatch(t.text) || (f.text.Some? && f.text.value.isMatch(t.text)))
    && (rule.route.exclude.Some? ==>
          var f := rule.route.exclude.value;
          !f.title.isMatch(t.text) && (f.text.Some? ==> !f.text.value.isMatch(t.text)))
  }

  /** The texts of an entry that a pattern for text is tried on. */
  function Bodies(e: Entry): seq<string> {
    (if e.content.Some? then [e.content.value] else []) + (if e.summary.Some? then [e.summary.value] else [])
  }

  predicate MatchesAny(f: Filter, e: Entry) {
    || (e.title.Some? && f.title.isMatch(e.title.value))
    || (f.text.Some? && exists i :: 0 <= i < |Bodies(e)| && f.text.value.isMatch(Bodies(e)[i]))
  }

  predicate TakesEntry(rule: Rule, topic: string, e: Entry) {
    && Feed(topic) in rule.topics
    && (rule.route.filter.Some? ==> MatchesAny(rule.route.filter.value, e))
    && (rule.route.exclude.Some? ==> !MatchesAny(rule.route.exclude.value, e))
  }

  lemma MatchesEntryIff(f: Filter, e: Entry)
    ensures MatchesEntry(f, e) <==> MatchesAny(f, e)
  {
    var bodies := Bodies(e);
    assert e.content.Some? ==> bodies[0] == e.content.value;
    assert e.summary.Some? ==> bodies[|bodies| - 1] == e.summary.value;
  }

  lemma {:induction false} ScanRuleIff(route: Route, topics: seq<TopicId>, topic: TopicId,
                                       allows: Route -> bool, o: Outbox)
    ensures o in ScanRule(route, topics, topic, allows) <==> topic in topics && allows(route) && o in route.outbox
  {
    if topics != [] {
      ScanRuleIff(route, topics[..|topics| - 1], topic, allows, o);
      assert topics == topics[..|topics| - 1] + [topics[|topics| - 1]];
    }
  }

  ghost predicate SomeRule(rules: seq<Rule>, o: Outbox, takes: Rule -> bool) {
    exists i :: 0 <= i < |rules| && takes(rules[i]) && o in rules[i].route.outbox
  }

  lemma {:induction false} ScanIff(rules: seq<Rule>, topic: TopicId, allows: Route -> bool,
                                   takes: Rule -> bool, o: Outbox)
    requires forall i :: 0 <= i < |rules| ==> (takes(rules[i]) <==> topic in rules[i].topics && allows(rules[i].route))
    ensures o in Scan(rules, topic, allows) <==> SomeRule(rules, o, takes)
  {
    if rules != [] {
      var init, rule := rules[..|rules| - 1], rules[|rules| - 1];
      ScanIff(init, topic, allows, takes, o);
      ScanRuleIff(rule.route, rule.topics, topic, allows, o);
      if SomeRule(init, o, takes) {
        var i :| 0 <= i < |init| && takes(init[i]) && o in init[i].route.outbox;
        assert rules[i] == init[i];
      }
      if SomeRule(rules, o, takes) {
        var i :| 0 <= i < |rules| && takes(rules[i]) && o in rules[i].route.outbox;
        assert i < |init| ==> init[i] == rules[i];
      }
      assert rules[|init|] == rule;
    }
  }

  // ---- The index ---------------------------------------------------------------------

  type Index = map<TopicId, seq<Route>>

  function Get(index: Index, topic: TopicId): seq<Route> {
    if topic in index then index[topic] else []
  }

  /** `filter` and `flat_map` over the routes of a topic. */
  function Outboxes(routes: seq<Route>, allows: Route -> bool): seq<Outbox> {
    if routes == [] then []
    else
      var r := routes[|routes| - 1];
      Outboxes(routes[..|routes| - 1], allows) + if allows(r) then r.outbox else []
  }

  lemma {:induction false} OutboxesConcat(a: seq<Route>, b: seq<Route>, allows: Route -> bool)
    ensures Outboxes(a + b, allows) == Outboxes(a, allows) + Outboxes(b, allows)
  {
    if b == [] {
      assert a + b == a;
    } else {
      assert (a + b)[..|a + b| - 1] == a + b[..|b| - 1];
      OutboxesConcat(a, b[..|b| - 1], allows);
    }
  }

  /** What the index should hold: a route once for each listing of the topic, in order. */
  function ListedIn(route: Route, topics: seq<TopicId>, topic: TopicId): seq<Route> {
    if topics == [] then []
    else ListedIn(route, topics[..|topics| - 1], topic) + if topics[|topics| - 1] == topic then [route] else []
  }

  function RoutesFor(rules: seq<Rule>, topic: TopicId): seq<Route> {
    if rules == [] then []
    else
      var rule := rules[|rules| - 1];
      RoutesFor(rules[..|rules| - 1], topic) + ListedIn(rule.route, rule.topics, topic)
  }

  ghost predicate Indexes(index: Index, rules: seq<Rule>) {
    forall topic :: Get(index, topic) == RoutesFor(rules, topic)
  }

  lemma {:induction false} ListedScan(route: Route, topics: seq<TopicId>, topic: TopicId, allows: Route -> bool)
    ensures Outboxes(ListedIn(route, topics, topic), allows) == ScanRule(route, topics, topic, allows)
  {
    if topics != [] {
      var init := topics[..|topics| - 1];
      ListedScan(route, init, topic, allows);
      var last := if topics[|topics| - 1] == topic then [route] else [];
      OutboxesConcat(ListedIn(route, init, topic), last, allows);
      assert [route][..0] == [] && [] + route.outbox == route.outbox;
    }
  }

  /** The index answers as the scan does, in order and with multiplicity. */
  lemma {:induction false} IndexAgreesWithScan(rules: seq<Rule>, topic: TopicId, allows: Route -> bool)
    ensures Outboxes(RoutesFor(rules, topic), allows) == Scan(rules, topic, allows)
  {
    if rules != [] {
      var init, rule := rules[..|rules| - 1], rules[|rules| - 1];
      IndexAgreesWithScan(init, topic, allows);
      ListedScan(rule.route, rule.topics, topic, allows);
      OutboxesConcat(RoutesFor(init, topic), ListedIn(rule.route, rule.topics, topic), allows);
    }
  }

  /** `index` is `start` with `route` appended to each of `topics`. */
  ghost predicate Extends(start: Index, index: Index, route: Route, topics: seq<TopicId>) {
    forall t :: Get(index, t) == Get(start, t) + ListedIn(route, topics, t)
  }

  lemma ExtendsSnoc(start: Index, before: Index, index: Index, route: Route, topics: seq<TopicId>, topic: TopicId)
    requires Extends(start, before, route, topics)
    requires forall t :: Get(index, t) == Get(before, t) + if t == topic then [route] else []
    ensures Extends(start, index, route, topics + [topic])
  {
    forall t
      ensures Get(index, t) == Get(start, t) + ListedIn(route, topics + [topic], t)
    {
      assert (topics + [topic])[..|topics|] == topics;
      Associative(Get(start, t), ListedIn(route, topics, t), if t == topic then [route] else []);
    }
  }

  lemma ExtendsRule(start: Index, index: Index, done: seq<Rule>, rule: Rule)
    requires Indexes(start, done) && Extends(start, index, rule.route, rule.topics)
    ensures Indexes(index, done + [rule])
  {
    assert (done + [rule])[..|done|] == done;
  }

  class Router {
    var index: Index
    ghost var rules: seq<Rule>

    ghost predicate Valid()
      reads this
    {
      Indexes(index, rules)
    }

    constructor FromManifest(rules: seq<Rule>)
      ensures Valid() && this.rules == rules
    {
      index := map[];
      this.rules := rules;
      new;
      for i := 0 to |rules|
        invariant Indexes(index, rules[..i])
        invariant this.rules == rules
      {
        assert rules[..i + 1] == rules[..i] + [rules[i]];
        AppendRule(rules[i], rules[..i]);
      }
      assert rules[..|rules|] == rules;
    }

    /** The inner loop of `from_manifest`. */
    method AppendRule(rule: Rule, ghost done: seq<Rule>)
      requires Indexes(index, done)
      modifies `index
      ensures Indexes(index, done + [rule])
    {
      var Rule(route, topics) := rule;
      ghost var start := index;
      for j := 0 to |topics|
        invariant Extends(start, index, route, topics[..j])
      {
        ghost var before := index;
        Append(topics[j], route);
        ExtendsSnoc(start, before, index, route, topics[..j], topics[j]);
        assert topics[..j + 1] == topics[..j] + [topics[j]];
      }
      assert topics[..|topics|] == topics;
      ExtendsRule(start, index, done, rule);
    }

    method Append(topic: TopicId, route: Route)
      modifies `index
      ensures forall t :: Get(index, t) == Get(old(index), t) + if t == topic then [route] else []
    {
      index := index[topic := Get(index, topic) + [route]];
    }

    function RouteTweet(tweet: Tweet): seq<Outbox>
      reads this
    {
      Outboxes(Get(index, Twitter(tweet.user)), r => AllowsTweet(r, tweet))
    }

    function RouteEntry(topic: string, entry: Entry): seq<Outbox>
      reads this
    {
      Outboxes(Get(index, Feed(topic)), r => AllowsEntry(r, entry))
    }

    lemma RoutesAsScanned(tweet: Tweet, topic: string, entry: Entry)
      requires Valid()
      ensures RouteTweet(tweet) == Scan(rules, Twitter(tweet.user), r => AllowsTweet(r, tweet))
      ensures RouteEntry(topic, entry) == Scan(rules, Feed(topic), r => AllowsEntry(r, entry))
    {
      IndexAgreesWithScan(rules, Twitter(tweet.user), r => AllowsTweet(r, tweet));
      IndexAgreesWithScan(rules, Feed(topic), r => AllowsEntry(r, entry));
    }

    /** An outbox gets a Tweet, or an entry, if and only if some rule with that outbox takes it. */
    lemma RoutesIff(tweet: Tweet, topic: string, entry: Entry, o: Outbox)
      requires Valid()
      ensures o in RouteTweet(tweet) <==> SomeRule(rules, o, rule => TakesTweet(rule, tweet))
      ensures o in RouteEntry(topic, entry) <==> SomeRule(rules, o, rule => TakesEntry(rule, topic, entry))
    {
      RoutesAsScanned(tweet, topic, entry);
      ScanIff(rules, Twitter(tweet.user), r => AllowsTweet(r, tweet), rule => TakesTweet(rule, tweet), o);
      forall i | 0 <= i < |rules|
        ensures TakesEntry(rules[i], topic, entry) <==>
          Feed(topic) in rules[i].topics && AllowsEntry(rules[i].route, entry)
      {
        var route := rules[i].route;
        if route.filter.Some? {
          MatchesEntryIff(route.filter.value, entry);
        }
        if route.exclude.Some? {
          MatchesEntryIff(route.exclude.value, entry);
        }
      }
      ScanIff(rules, Feed(topic), r => AllowsEntry(r, entry), rule => TakesEntry(rule, topic, entry), o);
    }
  }
}
