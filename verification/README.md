# Verified model of Pipitor

Pipitor is a feed aggregator: it subscribes to feeds over WebSub, follows Twitter users through
a stream and a list, and forwards what it receives to the outboxes that its manifest names.
This project models its stateful cores in Dafny and proves what they are meant to guarantee.
`dafny verify dfyconfig.toml` checks everything.

## What is modelled

* **WebSub subscriptions** (`Tables`, `RenewalTimer`, `Protocol`, `Subscriber`). The four SQL
  tables with their foreign keys, unique columns and cascading deletes; every statement and
  transaction that changes them; the renewal timer shared by the service and the scheduler.
  `Subscriber` holds the handlers as methods that change the tables statement by statement,
  each proved to make a step of the transition system in `Protocol`. A step is a sequence of
  commits, so a crash can be placed after any of them; it is followed by a restart.
  The main results are about all runs: no active subscription is ever unwatched, whatever is
  due at a poll of the timer is being renewed after it, a poll never sets a tick less than two
  seconds ahead, and the tables are well formed at every crash point.
* **Callback ids** (`CallbackId`). The base64url codec and the way from the path that a hub is
  given back to the subscription.
* **URL expansion** (`Strings`, `ExpandUrls`). The in-place edits of a UTF-8 buffer by
  character index, refined to a replacement on characters.
* **List polling** (`Interval`, `Snowflake`, `ListTimeline`). The rate limiter, the backfill,
  and the lower bound of the periodic requests.
* **Dispatch and configuration** (`Router`, `Dispatch`, `App`). Routing against a plain scan of
  the rules, at-most-once retweeting, and the replacement of the manifest as a transaction.

## Assumptions

* A handler, and a poll of a timer together with its callback, is one atomic step.
  `verify_intent` hastens the timer before it inserts the active row, and `Scheduler::poll`
  stores the next tick after its callback without looking at it again, so finer interleavings
  do not keep the timer's guarantees.
* `Instant` and Unix time are one clock that never goes back. The subscriber's clock counts
  whole seconds, as all its deadlines are whole seconds.
* The renewal margin is at most the present Unix time, and `now + margin + 1` fits in an `i64`.
* Unsigned arithmetic wraps, as in a release build; a debug build panics where it would.
* Random ids come from a finite list of draws. Running out of it stands for a retry loop that
  is still going when the process is killed.
* Version 0.13 of the `base64` crate accepts well-placed padding when it decodes, and rejects a
  lone last symbol and trailing bits.
* `String`s hold at most `isize::MAX` bytes.
* An `Instant` and the timer library can represent every deadline whose Unix time fits in 63
  bits of seconds, the one of an endless lease included, and every time of the past down to
  the epoch.

## Where the code falls short, and exactly when

* At startup, `expires_at - renewal_margin` wraps if the earliest expiry lies between the epoch
  and the margin after it. The first tick is then beyond what an `Instant` can hold where that
  is 64 bits of seconds, as on Unix, so `Subscriber::new` panics; where it is not, the tick
  never comes (`StartupWatchesIff`, `FirstTickFitsIff`, `StartupCanMissATick`).
* Confirming a renewal commits the deletion of the old subscription before the activation of
  the new one. A crash between the two, and only there, costs the feed one active subscription
  (`CrashBetweenTheCommitsLosesOne`).
* `expand_urls` compares a character index with a number of bytes to detect overlaps, so it
  rejects well-placed entities once earlier ones have grown the text enough
  (`ExpandIsSplice`, `ValidEntitiesCanBeRejected`). What it does accept is always right.
* A callback URI with a query part would send every verification to id 0 (`CallbackLeadsBack`).
  Deserialization of the manifest rejects such a URI (src/manifest.rs:479-491).
* The bookmark `last_tweet` can pass Tweets that were not handled. One send does it if the
  retweet then fails to be recorded (`BookmarkPassesUnhandledIff`, `BookmarkCanPassUnhandled`).
  A backfill does it without any fault: it delivers its newest page first, each page moves the
  bookmark, and a kill or a failed request before the last page loses the rest, as a later
  backfill asks only above the bookmark (`BackfillCoversIff`, `BackfillRunsAhead`,
  `BackfillCanBeCutShort`, `ListTimeline.AboveIff`). `BookmarkCoversIff` says for every run,
  from its deliveries and faults alone, when the bookmark can be relied on. Periodic requests
  still reach lost Tweets younger than the configured delay.
* `replace_manifest` restores manifest, pool and router on failure, but not the streams: if
  synchronizing WebSub subscriptions is what fails, the streams already follow the rejected
  manifest (`App.ReplaceManifest`, `StreamsCanFollowARejectedManifest`). A change of `stream`
  or `list` alone, or the removal of the Twitter section, does not reopen the streams
  (`StreamsAreKeptIff`).
* A replacement that changes the database leaves the WebSub subscriber on the old one, while
  the synchronization reads the new one (`App.ReplaceManifest`, `LeaveSubscriberBehind`;
  src/websub/subscriber.rs:75, src/app.rs:411). It also looks up only users whose tokens are
  not in memory yet, so the new database may lack the token rows of the others, and every
  retweet for those then fails a foreign key (`RowsAfterReplacementIff`,
  `ReplacementCanLoseTokenRows`).

## Model

| member | source | states |
|---|---|---|
| `Tables.ApplyKeepsWellFormed` | src/websub/hub.rs:102-113 | Whichever transaction or lone statement is committed, pending and active still partition the subscriptions, and `renewing` is still an injective map from pending to active ids of one hub and topic |
| `Tables.DeleteKeepsWellFormed` | migrations/2020-12-09-052909_alter_websub_renewing_subscriptions_primary_key/up.sql:1-4 | Deleting any set of subscriptions, with its cascades, leaves no dangling reference and no mismatched renewal |
| `Tables.DeletesExactly` | migrations/2020-12-09-052909_alter_websub_renewing_subscriptions_primary_key/up.sql:1-4 | Deleting subscriptions removes exactly their rows from every table, and exactly the renewals with either end among them; every other row is as it was |
| `Tables.EnabledRunsThrough` | src/websub/hub.rs:237-265 | The statements of every transaction, taken one by one as the database takes them, run through without a violation when the transaction is enabled, and have the effect that the other results are about |
| `Tables.FailsIff` | src/websub/hub.rs:102-113 | A creation fails exactly on a taken id, a renewal also exactly if the subscription is not active or is being renewed, an activation exactly if the id is not pending |
| `Tables.DropTopicDrops` | src/websub/hub.rs:172-178 | Unsubscribing from a topic leaves exactly the rows of the other topics, active if they were, and unchanged |
| `Tables.DropDanglingLeavesActive` | src/websub/subscriber/service.rs:52-59 | Removing dangling subscriptions leaves exactly the active ones, unchanged, and nothing pending or renewing |
| `Tables.EveryCrashPointIsWellFormed` | src/websub/subscriber/service.rs:387-416 | The tables are well formed after every prefix of every sequence of commits, which is where the process can be killed |
| `Tables.ApplyConcat` | src/websub/subscriber/service.rs:387-416 | Running two sequences of commits one after the other is running their concatenation, and it is possible exactly when each part is |
| `Tables.CommitMovesForward` | src/websub/hub.rs:232-268 | A commit moves an id only from absent to pending, from pending to active, or to absent, and changes no live row |
| `Tables.LiveRowsAreFrozen` | src/websub/subscriber/service.rs:359-430 | Over any run in which a row lives, its hub, topic, secret and expiry stay the same, and an active one stays active |
| `RenewalTimer.FiresExactlyWhenDue` | src/websub/subscriber/scheduler.rs:58-100 | With a deadline never earlier than the next tick, and equal to it unless a wake-up is outstanding, a poll runs the callback exactly when the next tick has come |
| `RenewalTimer.RunStaysArmed` | src/websub/subscriber/scheduler.rs:58-125 | Over all runs of hastens and polls the deadline is never earlier than the next tick, and without an outstanding wake-up it is the next tick, with no timer exactly when there is none |
| `RenewalTimer.NextTickIsEarliestRequest` | src/websub/subscriber/scheduler.rs:58-120 | Over all runs `next_tick` is the minimum of the callback's last answer, or the first tick, and all hastens since |
| `RenewalTimer.HastenIsHonoured` | src/websub/subscriber/scheduler.rs:114-120 | After a hasten the callback has run by the first poll at or after the tick asked for, whatever happened in between |
| `RenewalTimer.Handle.constructor` | src/websub/subscriber/scheduler.rs:104-109 | A handle starts with the first tick, or with the value for none |
| `RenewalTimer.Handle.Hasten` | src/websub/subscriber/scheduler.rs:114-120 | The next tick becomes the earlier of the two, with a wake-up exactly if it moved |
| `RenewalTimer.Scheduler.constructor` | src/websub/subscriber/scheduler.rs:39-48 | The deadline starts at the handle's tick, if it has one |
| `RenewalTimer.Scheduler.PollDelay` | src/websub/subscriber/scheduler.rs:58-88 | A poll re-arms the timer to the earlier of deadline and tick, and reports whether that has passed |
| `RenewalTimer.Scheduler.Reset` | src/websub/subscriber/scheduler.rs:90-99 | The callback's answer replaces tick and deadline alike, or clears both |
| `Protocol.Expires` | src/websub/subscriber/service.rs:378-383 | The expiry is `min(now + lease, i64::MAX)` for every lease |
| `Protocol.First` | src/query.rs:53-60 | Ascending order and one row: the least expiry, and none only if there is no row |
| `Protocol.TicksAreEarliest` | src/websub/subscriber.rs:59-96 | Unless a subtraction wraps, the first tick is the earliest renewal time of all active subscriptions and the next tick that of those not being renewed, and there is none exactly if there are none |
| `Protocol.RenewalsAddExactly` | src/websub/hub.rs:102-113 | Any sequence of renewals leaves `active` alone and adds exactly its old ids and fresh new ids to `renewing`, `pending` and `subscriptions` |
| `Protocol.RenewalsAreDistinct` | src/websub/hub.rs:102-113 | No subscription is renewed twice in one pass, and no new id is used twice |
| `Protocol.RenewedRows` | src/websub/hub.rs:102-113 | Each renewal of a pass leaves its own pending row, with its own hub, topic and secret, and the pair that ties it to the old subscription |
| `Protocol.RenewalsAreEnabledIff` | src/websub/subscriber/service.rs:161-186 | Renewals of active, unrenewed subscriptions, with their own hub and topic and under ids that are free and not repeated, satisfy the unique and foreign-key constraints at every statement, and nothing else that is made of renewals does |
| `Protocol.RenewalsExistIff` | src/websub/hub.rs:239-257 | There are renewals of everything that is due if and only if that many ids in `[0, 2^63)` are free |
| `Protocol.PollRenewsExactlyDue` | src/websub/subscriber/service.rs:161-186 | Any choice of one free id for each due subscription, in any order, makes a renewal loop after which the newly renewing ids are exactly the active ones that expired by `now + margin + 1` and were not being renewed, one new id each, and every id left alone expires later |
| `Protocol.ConfirmsIff` | src/websub/subscriber/service.rs:359-375 | A subscription can be confirmed exactly while it is pending, and under its own topic |
| `Protocol.ActivationIsEnabled` | src/websub/subscriber/service.rs:387-416 | Whenever a verification is accepted, its statements violate no constraint |
| `Protocol.ConfirmedRenewalIsASwap` | src/websub/subscriber/service.rs:387-416 | Confirming a renewal removes exactly the old subscription and activates exactly the new one, of the same hub and topic, and touches no other row of any table |
| `Protocol.ConfirmedRenewalKeepsTheNumberOfSubscriptions` | src/websub/subscriber/service.rs:387-416 | It keeps the number of active subscriptions of every hub and topic |
| `Protocol.CrashBetweenTheCommitsLosesOne` | src/websub/subscriber/service.rs:394-416 | Of the three places where a crash can fall, only the one between the two commits leaves the feed with one active subscription less after the restart |
| `Protocol.ConfirmedSubscriptionOnlyActivates` | src/websub/subscriber/service.rs:407-416 | Confirming a first subscription moves it from pending to active and changes nothing else |
| `Protocol.CommitsAreEnabled` | src/websub/subscriber.rs:81-96 | From every good state, every statement of every step, crashes included, satisfies the constraints, so that no unwrap panics; for the renewal loop this is derived from what is due and which ids are free |
| `Protocol.PollIsPossibleIff` | src/websub/subscriber.rs:81-96 | From every good state a poll of the timer can take place if and only if it does not fire or there are ids left for what it renews |
| `Protocol.DropTopicKeepsWatched` | src/websub/hub.rs:160-190 | Unsubscribing from a topic removes both ends of a renewal or neither, and leaves no subscription unwatched |
| `Protocol.ActivationKeepsWatched` | src/websub/subscriber/service.rs:378-416 | The hasten in `verify_intent` is early enough for the row that it activates |
| `Protocol.PollKeepsWatched` | src/websub/subscriber.rs:81-96 | The callback's answer is early enough for every row that it leaves outside `renewing` |
| `Protocol.StartupWatchesIff` | src/websub/subscriber.rs:59-65 | For any well-formed database, startup watches every active subscription if and only if the earliest expiry is before the epoch or at least the margin after it |
| `Protocol.FirstTickFitsIff` | src/websub/subscriber/scheduler.rs:39-48 | For any margin below 2^63 seconds, in exactly those cases the first tick is one that an `Instant` of 64-bit seconds can be made of |
| `Protocol.StartupCanMissATick` | src/websub/subscriber.rs:59-65 | A subscription that expires in September 2020 and a margin of 54 years: the first tick wraps to one that no `Instant` of 64-bit seconds can hold, and that is not in time |
| `Protocol.StepKeepsInv` | src/websub/subscriber.rs:51-104 | Every step and every crash with restart keeps the tables well formed, the timer armed and every subscription watched |
| `Protocol.StartupIsGood` | src/websub/subscriber/service.rs:52-59 | Startup on any well-formed database whose expiries are not before the margin establishes that invariant |
| `Protocol.EveryReachableStateIsGood` | src/websub/subscriber.rs:51-104 | The invariant holds in every state of every run |
| `Protocol.NoSubscriptionIsUnwatched` | src/websub/subscriber.rs:59-96 | In every state of every run each active subscription is being renewed, or the next tick is no later than its renewal is due and the timer is armed for that or about to be polled |
| `Protocol.EveryDeadlineFits` | src/websub/subscriber/scheduler.rs:90-125 | In every state of every run the next tick and the deadline fit in 64-bit seconds, whatever leases were granted |
| `Protocol.PollRenewsWhatIsDue` | src/websub/subscriber/service.rs:157-187 | In every run, after a poll of the timer every subscription whose renewal was due is being renewed |
| `Protocol.PollRenewsIff` | src/websub/subscriber/service.rs:161-175 | In every run, a subscription that was not being renewed is after a poll if and only if the poll fired and it expires by `now + margin + 1`; its expiry stays the same |
| `Protocol.PollNeverSpins` | src/websub/subscriber.rs:81-96 | In every run, a poll that fires sets the next tick at least two seconds ahead, keeps `active`, and adds as many pending rows as subscriptions were due |
| `Protocol.BecomesActiveByVerification` | src/websub/subscriber/service.rs:359-375 | In every run, an id becomes active only in a verification of that id that names its own topic, while it is pending |
| `Protocol.VerificationActivatesIff` | src/websub/subscriber/service.rs:355-431 | A verification activates an id exactly if it is pending and has that topic, until `now + lease` or the end of time, and otherwise changes nothing |
| `Protocol.ReplayedVerificationChangesNothing` | src/websub/subscriber/service.rs:368-375 | Right after a verification was accepted, a replay is refused and changes neither tables nor timer, whatever lease it names |
| `Protocol.VerifiedIsRefusedForGood` | src/websub/subscriber/service.rs:368-375 | Once a subscription is active, whatever is committed afterwards, a verification of its id is refused until the id is drawn again for a new row |
| `Protocol.RunsAreCommits` | src/websub/subscriber.rs:51-104 | The tables in every state of every run are what its commits make of the initial ones, all of them possible |
| `Subscriber.Service.GenSecret` | src/websub/hub.rs:280-289 | 24 random bytes fill the 32 characters of a secret exactly |
| `Subscriber.Service.CreateSubscription` | src/websub/hub.rs:232-268 | Takes the first drawn id that no subscription has, with a pending row; without one, every draw has been tried and nothing changes |
| `Subscriber.Service.Subscribe` | src/websub/hub.rs:65-88 | One committed creation of a pending row under a fresh id, and a request whose callback, with any query, leads back to it and which carries its topic and secret, unless the draws have run out |
| `Subscriber.Service.Renew` | src/websub/hub.rs:90-131 | One committed renewal of an active, unrenewed subscription, never a constraint violation: a fresh pending row paired with it, and a request with the hub, topic and secret of the new row and a callback that leads back to the new row, unless the draws have run out |
| `Subscriber.Service.RenewNext` | src/websub/subscriber/service.rs:184-186 | An iteration of the renewal loop adds its subscription to those renewed, its commit to the log and its request to those sent, unless the draws have run out |
| `Subscriber.Service.RenewEach` | src/websub/subscriber/service.rs:184-186 | The loop finishes if and only if it has renewed each of what it was given; otherwise it has renewed part of that, and every draw is used up and taken |
| `Subscriber.Service.RenewSubscriptions` | src/websub/subscriber/service.rs:157-187 | Renews exactly the active subscriptions with `expires_at <= now + margin + 1` that were not being renewed, with one request for each in order, which is for the new row paired with the old one |
| `Subscriber.Service.Unsubscribe` | src/websub/hub.rs:133-158 | Exactly that row is deleted in one commit, and the request's callback leads back to its id |
| `Subscriber.Service.UnsubscribeRequests` | src/websub/hub.rs:180-189 | One request for each row of the topic, to its own hub and callback |
| `Subscriber.Service.UnsubscribeAll` | src/websub/hub.rs:160-190 | Deletes exactly the rows with that topic in one commit, leaves the others as they were, and asks each one's own hub once, with its own callback |
| `Subscriber.Service.RemoveDanglingSubscriptions` | src/websub/subscriber/service.rs:52-59 | Leaves exactly the active subscriptions, in one commit |
| `Subscriber.Service.AcceptSubscription` | src/websub/subscriber/service.rs:376-416 | What is done about an accepted verification is the swap or the activation, commit by commit, with the hasten before it |
| `Subscriber.Service.VerifyIntent` | src/websub/subscriber/service.rs:355-431 | A subscription is confirmed, with its challenge, exactly while it is pending and under its own topic: it becomes active until `now + lease` or the end of time, the old row of a renewal and no other leaves and its own hub is told so with its own topic and callback, and the next tick is no later than its renewal; an unsubscription is confirmed exactly when no live row has that id and topic; everything else is "not found" and changes nothing |
| `Subscriber.Service.AnswerMeans` | src/websub/subscriber/service.rs:367-430 | A subscription is confirmed exactly while it is pending and under its own topic, an unsubscription exactly if there is no such row |
| `Subscriber.Server.constructor` | src/websub/subscriber.rs:51-104 | The timer starts at the earliest expiry of all active rows less the margin |
| `Subscriber.Server.RemoveDanglingSubscriptions` | src/websub/subscriber/service.rs:52-59 | Construction followed by this is the startup that runs of the system begin with |
| `Subscriber.Server.Poll` | src/websub/subscriber.rs:81-96 | A poll with its callback is a step of the system and keeps the invariant; once the next tick has come it renews exactly the active subscriptions that expire by `now + margin + 1`, each with a request for its new row; only a poll that fires and uses up every draw does not end, with part of what is due renewed |
| `Subscriber.Server.Subscribe` | src/websub/subscriber/service.rs:148-155 | A subscription is a step of the system, keeps the invariant and sends one request for the new row, unless the draws have run out |
| `Subscriber.Server.VerifyAt` | src/websub/subscriber/service.rs:248-250 | A verification for an id is a step of the system and keeps the invariant |
| `Subscriber.Server.UnsubscribeAll` | src/websub/subscriber/service.rs:189-195 | Unsubscribing from a topic is a step of the system and keeps the invariant, drops exactly the rows of that topic, and makes one request for each, to its own hub and callback |
| `Subscriber.Server.Call` | src/websub/subscriber/service.rs:235-250 | A request whose path resolves to an id is a verification step for that id: a subscription is confirmed, and the id becomes active, exactly while it is pending and under its own topic, with a farewell to the old row exactly when a renewal is confirmed; any other request changes nothing, and is "bad request" for a malformed id and "not found" without the prefix |
| `CallbackId.FromToLe` | src/websub.rs:11-31 | Little-endian bytes decode to the integer they encode |
| `CallbackId.ToFromLe` | src/websub.rs:21-31 | And any bytes are the encoding of the integer they decode to |
| `CallbackId.UrlSafeAlphabet` | src/websub.rs:18-18 | Symbols are written with the alphabet of table 2 of RFC 4648 |
| `CallbackId.SymbolsSpellBits` | src/websub.rs:18-18 | The symbols spell the bits of the bytes six at a time, most significant first, with zeroes at the end |
| `CallbackId.DecodeEncodeSymbols` | src/websub.rs:18-18 | Base64 symbols decode to the bytes they encode; `n` bytes take `ceil(4n/3)` symbols |
| `CallbackId.EncodeDecodeSymbols` | src/websub.rs:26-26 | Whatever symbols decode are the encoding of the result: there is one spelling for each byte string |
| `CallbackId.DecodeEncodeBase64` | src/websub.rs:18-26 | The same for text in the URL-safe alphabet without padding |
| `CallbackId.PaddingIsTolerated` | src/websub.rs:26-26 | Padding makes no difference to decoding where it belongs, and is rejected elsewhere |
| `CallbackId.AtMostEightBytes` | src/websub.rs:22-29 | Eleven characters or fewer never decode to more than eight bytes, so the check for it never fails |
| `CallbackId.DecodeIntoSlice` | src/websub.rs:26-26 | The decoded bytes fill the front of the buffer and the rest keeps its contents |
| `CallbackId.DecodeCallbackId` | src/websub.rs:21-31 | The buffer read as eight bytes is the integer that the decoded bytes alone spell |
| `CallbackId.IdRoundTrip` | src/websub.rs:11-31 | Every `u64` survives encoding and decoding, in at most eleven characters |
| `CallbackId.ReencodingIsCanonical` | src/websub.rs:11-31 | A string that decodes is given back by encoding if and only if it has no padding and no most significant zero byte |
| `CallbackId.PrepareCallbackPrefix` | src/websub/subscriber.rs:163-180 | The prefix ends with a slash, and has at most that one more than the configured path |
| `CallbackId.PathOf` | src/websub/subscriber/service.rs:235-236 | The path is what comes before the first question mark |
| `CallbackId.Resolve` | src/websub/subscriber/service.rs:235-244 | A path is "not found" exactly without the prefix, resolves exactly to the id that the rest decodes to if that fits an `i64`, and is otherwise a "bad request" |
| `CallbackId.CallbackLeadsBack` | src/websub/hub.rs:270-278 | For every prefix, every `i64` and every query that a hub appends, the callback made for an id resolves to it if and only if the id is 0, or it is positive and the configured URI has no query |
| `CallbackId.RequestReaches` | src/websub/hub.rs:270-278 | For every prepared prefix without a query, the request of a hub for the callback of an id, with any query, reaches that id |
| `Strings.Utf8Split` | src/util.rs:165-202 | A cut at a character of a text is a cut of its UTF-8 bytes into two encodings |
| `Strings.ScalarRoundTrip` | src/util.rs:187-202 | The bytes of a character decode to it by the table of section 3 of RFC 3629 |
| `Strings.ScalarShape` | src/util.rs:187-202 | They are as many as that table has for the character, with a lead byte that tells the number and continuation bytes after it |
| `Strings.CharIndexToByteIndex` | src/util.rs:187-202 | The byte at which a character starts, and none past the end |
| `Strings.Locate` | src/util.rs:171-180 | The same counted from a character boundary in the middle |
| `Strings.SpliceBytes` | src/util.rs:182-182 | Replacing bytes between two character boundaries encodes the text with those characters replaced |
| `Strings.Text.ReplaceCharRange` | src/util.rs:165-185 | The buffer stays valid UTF-8 and holds the text with exactly the character range replaced; out of range nothing changes, and `usize` subtraction wraps |
| `ExpandUrls.SortSorts` | src/twitter/models.rs:135-135 | The entities come out in order of their first index |
| `ExpandUrls.SortIsStable` | src/twitter/models.rs:135-135 | Entities with the same first index keep their order, and none is lost or added |
| `ExpandUrls.StableSortIsUnique` | src/twitter/models.rs:135-135 | There is only one list that is sorted and stable |
| `ExpandUrls.AllTakePart` | src/twitter/models.rs:128-135 | The merged and sorted list holds every link and every medium as often as they occur, and among those with one first index the ones of the longer list come first, media if there are as many links |
| `ExpandUrls.MergeOrderDoesNotMatter` | src/twitter/models.rs:128-135 | If no link starts where a medium does, the sorted list does not depend on which list is appended to which |
| `ExpandUrls.SpliceIsReplacement` | src/twitter/models.rs:137-159 | Splicing left to right with a moving offset equals replacing entities one by one from the last to the first |
| `ExpandUrls.SpliceShows` | src/twitter/models.rs:137-159 | In a splice each entity shows expanded, moved by what was expanded before it, and the text between the entities is as it was |
| `ExpandUrls.OnlyOneShows` | src/twitter/models.rs:137-159 | There is only one text that shows the entities so |
| `ExpandUrls.ExpandIsSplice` | src/twitter/models.rs:137-159 | For every text and every list of entities, a result is the splice, and there is one if and only if the entities fit and none ends, in characters, before what was produced ends, in bytes |
| `ExpandUrls.ErrorsHaveCauses` | src/twitter/models.rs:144-158 | Invalid indices are reported only of an entity that ends before it starts, out of range only of one past the text or before the end of the one before it, and of well-placed entities nothing but an overlap |
| `ExpandUrls.ValidEntitiesCanBeRejected` | src/twitter/models.rs:148-150 | Two disjoint entities within the text that are rejected as overlapping |
| `ExpandUrls.ReplaceUrl` | src/twitter/models.rs:152-158 | With an offset at which the produced part ends, one iteration replaces the entity in the text and moves the offset past it, or fails exactly if it starts before the offset or ends past the text |
| `ExpandUrls.RangeIsInside` | src/twitter/models.rs:152-152 | A subtraction that wraps yields a range that no text is long enough for, so it is reported as out of range |
| `ExpandUrls.SpliceInto` | src/twitter/models.rs:137-159 | The loop over the buffer computes the loop over characters, error for error |
| `ExpandUrls.ExpandUrls` | src/twitter/models.rs:118-162 | Whenever there is a result, it is the encoding of the text in which every link and every medium shows expanded in its place and everything else is as it was; when there is one is said exactly, and without entities it is the text |
| `Interval.DeadlineKeepsRate` | src/twitter/list_timeline/interval.rs:52-77 | After any run the deadline is later than each tick by as many periods as ticks followed it |
| `Interval.RateBound` | src/twitter/list_timeline/interval.rs:52-77 | Over any polls and delays, `j + 1` ticks after a tick at least `j` periods have passed |
| `Interval.WindowBound` | src/twitter/list_timeline/interval.rs:52-77 | At most `span / period + 2` ticks fall in any window of length `span` |
| `Interval.DelayIsHonoured` | src/twitter/list_timeline/interval.rs:92-99 | After a delay no tick ever comes before the time asked for |
| `Interval.TicksIff` | src/twitter/list_timeline/interval.rs:64-74 | A poll ticks exactly if it comes at or after the deadline and the delay asked for, and the next deadline is a period after the last, or now |
| `Interval.DeadlineDoesNotDrift` | src/twitter/list_timeline/interval.rs:72-74 | As long as no tick is more than a period late and nothing is delayed, the deadline after `n` ticks is exactly `n` periods on |
| `Interval.Handle.Delay` | src/twitter/list_timeline/interval.rs:92-94 | The requested tick only grows |
| `Interval.Handle.DecodeNextTick` | src/twitter/list_timeline/interval.rs:96-99 | Takes the requested tick and leaves none |
| `Interval.Interval.At` | src/twitter/list_timeline/interval.rs:38-43 | The first deadline is the time given |
| `Interval.Interval.PollNext` | src/twitter/list_timeline/interval.rs:52-77 | A poll ticks exactly at or after the deadline and the delay asked for, is a step of the timer that the bounds are about, and ends the stream once the handle is gone |
| `Snowflake.NewDuration` | src/util.rs:237-240 | Carrying seconds out of the nanoseconds keeps the duration, and is asked only of values that fit a `u32` |
| `Snowflake.TimeOfSnowflake` | src/util.rs:234-242 | The time of an id is its upper bits in milliseconds since the Twitter epoch, to the millisecond |
| `Snowflake.SnowflakeExistsWithin42Bits` | src/util.rs:244-247 | The conversion back panics exactly outside the 42 bits of milliseconds after the Twitter epoch |
| `Snowflake.SnowflakeIsAdjoint` | src/util.rs:232-247 | For every id, `system_time_to_snowflake(t) <= id` if and only if `t` is not in a later millisecond than the id's |
| `Snowflake.SnowflakeRoundTrip` | src/util.rs:232-247 | Id to time to id clears exactly the low 22 bits |
| `Snowflake.SystemTimeRoundTrip` | src/util.rs:232-247 | Time to id to time truncates to the millisecond |
| `Snowflake.SinceIdIsBoundedIff` | src/twitter/list_timeline.rs:225-229 | A request is bounded exactly if something was seen, by the lower of the newest id and the horizon, and panics exactly if the horizon is needed and out of range |
| `Snowflake.SinceIdLeavesOutOnlySeen` | src/twitter/list_timeline.rs:225-229 | The bound of a request leaves out exactly the ids that are neither above the newest seen nor above the horizon, and none stamped in a later millisecond than `now - delay` |
| `ListTimeline.UpToNext` | src/twitter/list_timeline.rs:196-199 | On a newest-first timeline, asking for ids up to one less than the last received gives exactly what follows it |
| `ListTimeline.AboveIff` | src/twitter/list_timeline.rs:98-101 | A backfill asks for exactly the ids above the bookmark, and so never again for one at or below it |
| `ListTimeline.WhatFollows` | src/twitter/list_timeline.rs:194-200 | After a page that continues what was fetched, the next request asks for exactly the rest |
| `ListTimeline.RequestSender.SetSinceId` | src/twitter/list_timeline.rs:275-277 | The newest id seen only grows |
| `ListTimeline.RequestSender.Request` | src/twitter/list_timeline.rs:225-230 | A request is bounded exactly if something was seen, and asks for 200 Tweets then and for a single one otherwise |
| `ListTimeline.RequestSender.OnAnswer` | src/twitter/list_timeline.rs:237-268 | A page with Tweets is delivered before its first id counts as seen, and an exhausted rate limit delays the next request unless the receiver is gone |
| `ListTimeline.Backfill.constructor` | src/twitter/list_timeline.rs:98-107 | The first request asks for everything above the bookmark |
| `ListTimeline.Backfill.Continue` | src/twitter/list_timeline.rs:194-209 | Asks for what follows the page, and sends it exactly if the receiver is still there |
| `ListTimeline.Backfill.Poll` | src/twitter/list_timeline.rs:177-210 | A poll fails exactly if the request for what is not fetched yet failed; otherwise it gets a page further, or ends with everything sent, or with the receiver gone and some left |
| `ListTimeline.Backfill.Drive` | src/twitter/list_timeline.rs:177-210 | The backfill terminates. For every server that answers and every receiver that stays it completes, and its pages join to exactly the eligible Tweets, newest first without gap or repeat; it fails exactly if the request for the next of them failed, is cut off only if the receiver took no more, and what it sent by then is a prefix of them |
| `Router.ListedScan` | src/router.rs:27-36 | A route listed under a topic several times answers as many times as the rule lists it |
| `Router.IndexAgreesWithScan` | src/router.rs:72-96 | Filtering the index gives what walking all rules gives, in order and with multiplicity |
| `Router.Router.FromManifest` | src/router.rs:22-39 | The index built from the rules holds for each topic its routes in the order of the rules |
| `Router.Router.AppendRule` | src/router.rs:27-36 | Adding a rule extends the index to the rules so far and that one |
| `Router.Router.Append` | src/router.rs:47-52 | Appends the route to its topic and leaves every other topic alone |
| `Router.Router.RoutesAsScanned` | src/router.rs:72-96 | `route_tweet` and `route_entry` agree with the scan of the rules |
| `Router.Router.RoutesIff` | src/router.rs:72-96 | An outbox gets a Tweet or an entry if and only if some rule with that outbox lists its author or topic, has no filter or one that matches, and no exclude that matches |
| `Dispatch.Latest` | src/app/sender.rs:173-177 | The duplicate is the newest remembered Tweet of the same text and user, if any |
| `Dispatch.RoutedAsScanned` | src/app/sender.rs:213-217 | A Tweet goes to the outboxes that walking the rules gives for it, in order and with multiplicity |
| `Dispatch.RoutedIff` | src/app/sender.rs:213-217 | It goes to a user if and only if some rule with an outbox of the user lists the author, lets the text through its filter and does not exclude it |
| `Dispatch.SendOneMeans` | src/app/sender.rs:137-262 | A send makes a task, and remembers the Tweet with exactly those whom the rules send it to, if and only if the Tweet is new and no retweet, nothing fails, they all have token rows and, with duplicates skipped, there is someone; the duplicate to check is the newest of the same author and text; the bookmark moves exactly when asked to and above |
| `Dispatch.SendingHandles` | src/app/sender.rs:137-197 | A Tweet sent without an error needs nothing more; the bookmark never moves back, and only to that Tweet when asked to |
| `Dispatch.BookmarkPassesUnhandledIff` | src/app/sender.rs:152-178 | For a single send, and every fault: the bookmark comes to rest on a Tweet that this send leaves unhandled if and only if the Tweet is new and above the bookmark and wanted, and the duplicate lookup or the retweet transaction fails |
| `Dispatch.BookmarkCanPassUnhandled` | src/app/sender.rs:152-166 | A Tweet above the bookmark whose retweet the database fails to record, with the bookmark on it afterwards |
| `Dispatch.BookmarkMovesLast` | src/app/sender.rs:124-135 | Within a batch the bookmark moves, if at all, to the newest Tweet, once every older one is handled |
| `Dispatch.SendBatchKeeps` | src/app/sender.rs:124-197 | A batch, interrupted or not, adds no retweet for a Tweet already remembered and at most one for each other |
| `Dispatch.AtMostOnce` | src/app/sender.rs:124-262 | Over any deliveries from stream and list under any configurations, a Tweet is retweeted at most once, and the bookmark never decreases |
| `Dispatch.RunRecordsIff` | src/app/sender.rs:124-262 | Over any deliveries, what is remembered and where the bookmark is follow from the book before, the Tweets delivered, the statements at which the database fails and the token rows: a Tweet is entered exactly when it is wanted and nothing that its send takes fails |
| `Dispatch.BookmarkCoversIff` | src/app/sender.rs:124-197 | At every point of every run, every posted Tweet at or below the bookmark is handled if and only if each wanted one at or below the mark is among the ids of the book that the deliveries and faults make |
| `Dispatch.FaultlessCoversIff` | src/app/sender.rs:124-197 | As long as nothing fails, it is so if and only if every wanted one at or below the mark was remembered before or has been delivered |
| `Dispatch.BackfillCoversIff` | src/app.rs:503-505 | After any number of pages of a backfill without faults the bookmark is at their mark, and the Tweets at or below it are handled if and only if no Tweet of the pages still to come is wanted, not remembered, and at or below that mark |
| `Dispatch.MarkIsNewestNew` | src/app/sender.rs:130-157 | The mark of a list of pages is the first of their newest Tweets that is neither remembered nor at or below the bookmark before, or that bookmark if there is none |
| `Dispatch.BackfillRunsAhead` | src/app/sender.rs:130-157 | If the newest Tweet is new, the first page of a backfill takes the bookmark to it, past every Tweet that is still to come, and no later page moves it |
| `Dispatch.BackfillCanBeCutShort` | src/app.rs:503-505 | Two pages of two Tweets: after the first the bookmark is past two unhandled ones, after both it can be relied on |
| `Dispatch.Sender.SendTweets` | src/app/sender.rs:124-135 | The loop sends oldest first, lets only the newest move the bookmark, and stops at the first error |
| `Dispatch.Sender.SendTweet` | src/app/sender.rs:137-197 | The statements have the effect that the properties above are about, wherever the database fails; a task is made only for a Tweet that is no retweet, and for exactly the users that the rules send it to |
| `Dispatch.Sender.RetweetOne` | src/app/sender.rs:199-262 | The transaction records the Tweet and all its outboxes, or nothing |
| `App.CountTellsWhetherAll` | src/app/core.rs:156-173 | As many rows as users asked for means a row for every one of them, and conversely |
| `App.ListedIff` | src/manifest.rs:178-208 | The topics and the users of a manifest are those that some rule lists or has an outbox of |
| `App.InvalidIff` | src/manifest.rs:221-234 | A manifest is invalid exactly if it has no Twitter section although some rule listens or sends to a user |
| `App.UsersIff` | src/app/core.rs:157-160 | The users that need tokens are those of some rule's outbox and that of the API |
| `App.FateIff` | src/app.rs:307-334 | A replacement finishes exactly if the tokens are there, the stream connects and the bookmark is readable where they are needed, and the subscriptions are readable; each earlier failure takes precedence |
| `App.StreamsAreKeptIff` | src/app.rs:310-327 | The streams are kept exactly when there is no Twitter section, or client and user are unchanged and the rules listen to the same users |
| `App.StreamsCanFollowARejectedManifest` | src/app.rs:320-330 | A valid manifest that adds a Twitter user, for which the streams are reopened before the replacement fails |
| `App.RowsAfterReplacementIff` | src/app/core.rs:157-167 | After a replacement every user has a token row in the database of the pool if and only if those whose tokens were already in memory have |
| `App.ReplacementCanLoseTokenRows` | src/app/core.rs:157-167 | A replacement that only changes the database succeeds although the cached user has no row there, and then every retweet for that user fails its foreign key |
| `App.App.RoutedUsersHaveTokens` | src/app/twitter_request_ext.rs:20-34 | In every valid state each outbox user that any topic is routed to has a token, and so has the API user, so that neither unwrap panics |
| `App.App.RowsMakeRetweetsSound` | src/app/sender.rs:208-223 | In every valid state in which every user has a row, no retweet of whatever is delivered fails for want of one |
| `App.App.New` | src/app/core.rs:40-74 | A program starts exactly if its manifest is valid, its database opens and every user it acts as has a token, and then holds exactly their tokens, with the subscriber on the same database |
| `App.App.LoadTwitterTokens` | src/app/core.rs:150-178 | Adds the missing users' tokens if all are there, and otherwise fails and adds none |
| `App.App.GcTwitterTokens` | src/app/core.rs:180-203 | Keeps exactly the tokens of the manifest's users |
| `App.App.Apply` | src/app.rs:307-334 | The fallible part ends as it should in each case, never drops a token, and on success has one for every user |
| `App.App.ReplaceManifest` | src/app.rs:236-348 | On success manifest, pool, router and tokens all follow the new manifest; on an error or a cancellation manifest, pool and router are as before; in every case each outbox user and the API user has a token in memory and the router indexes the manifest's rules; the users have rows in the new database exactly if those known before do; and the WebSub subscriber is left on another database exactly if the replacement succeeds with one |
| `App.LeaveSubscriberBehind` | src/app.rs:253-261 | A program with a subscriber whose database is replaced, and whose subscriber stays on the old one |
| `App.App.Rollback` | src/app.rs:274-287 | Puts back the old manifest, and the old pool if it was replaced |

## Left out

- HTTP, TLS, sockets, IPC, signals and the command line. The `unsubscribe` command runs in another process and can drop a pending renewal, so it is no step of the system.
- Distribution of content (the rest of `Service::call`): signatures, and the parsing of Atom, RSS and JSON. Regular expressions are predicates.
- Interleavings within a step, memory ordering and wakers: see the assumptions. That the executor polls a woken or expired timer is assumed, as is the end of the scheduler once the service is dropped.
- Liveness that depends on a hub or on Twitter answering.
- The removal of topics dropped from the manifest: `sync_websub_subscriptions` looks for them among subscriptions already restricted to the manifest's topics (src/app.rs:414-419, src/app.rs:442-450), so that loop visits nothing and there is nothing to prove.
- The classification of errors that decides when a row of `ongoing_retweets` is deleted: such rows may go at any time in the model, and no property rests on them.
- Sending of feed entries and the `entries` table.
- The `created_at` column, and the order in which SQLite returns rows without `ORDER BY`: the loops take them in any order.
- The millisecond rounding of the timer library, and the sorting algorithm of the standard library: a stable sort has only one result, which is proved.
- `ConcatBody`, `First`, `text::sanitize`, `resolve_database_uri` and deserialization visitors: each would only add easy members.
- Opening of streams is one event with three outcomes, and the requests that a synchronization sends are not recorded.
