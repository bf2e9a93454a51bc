# Verified models of the technology demos

Most of this repository wires up libraries. Seven places hold logic of their own,
and each is modelled here together with what it promises:

- **The lease lock and the bounded counter** (`LeaseLock*.dfy`). Any number of
  clients run `CounterIncr.run` against one key with a ten-second expiry. One step
  of the model is one access to shared memory or one Redis command: each test of
  the counter, SET NX EX 10, the read half and the write half of the increment,
  GET, DEL. A schedule interleaves such steps with the passing of time, and every
  theorem is about all schedules, all numbers of clients and all values of TOTAL.
  `LeaseLockProgram` writes `run` down a second time, as the nested loops it is in the
  source, and shows that under every schedule the two go through the same states.
  `Cluster` holds the same state as an object whose methods change it in place.
- **The GraphiQL page's URL parameters** (`Utf8`, `UriComponent`, `PropertyKeys`,
  `SearchString`, `GraphiqlPage`). UTF-8 (section 3 of RFC 3629), percent-encoding (section 2.1 of
  RFC 3986), `encodeURIComponent` and `decodeURIComponent` (section 19.2.6 of
  ECMA-262) are written out in full, with the malformed inputs, and so is the order
  in which `Object.keys` lists keys (section 10.1.11 of ECMA-262). A Dafny `char` is a
  Unicode scalar value, so a `string` is a well-formed JavaScript string.
- **The publisher-confirm tracker** (`ConfirmTracker`, `ConfirmPublisher`): the
  publishing loop, the acknowledgement handler and the wait loop as an interleaved
  protocol over any number of messages, and as the loops themselves.
- **The GraphQL batch collector** (`BatchCollector`), **the vendor store**
  (`VendorStore`), **the two base-directory searches** (`BaseDirectory`) and **the
  two string joiners** (`Joiner`).

## Results a reader may not expect

- `unlock`'s comment promises to "release lock only if the owner to release is the
  one who locked". The code does not keep that promise: `UnlockPromiseExact` shows
  that it can fail exactly when two or more clients compete for any work at all.
  `ReleasesOwnLeaseIffInTime` gives the exact moment: until the first misuse, a DEL
  hits the caller's own lease if and only if it comes less than ten seconds after
  its SET. `StrayDeleteNeedsExpiry` covers the misuses that cascade from the first.
- Releasing in time is not enough to protect the counter. The same configurations,
  and no others, can lose an increment even in complete runs, in which every client
  has returned and every DEL came in time (`LostIncrementExact`): a client that
  outlives its lease before its GET finds another id there and deletes nothing, but
  meanwhile another one has read the counter. What is enough is that
  no client that has passed the re-check outlives its lease before the end of its
  `unlock`; then none is ever lost (`NoIncrementLost`). And then the demo ends under
  every fair scheduler, within a number of rounds known beforehand
  (`FairRunsFinish`).
- The demo can end with the lock still taken. A client that locks after the last
  increment returns at the re-check, without `unlock`; this can happen exactly when
  two or more clients compete for any work (`AbandonedLockExact`).
- Fairness to the demo is not fairness to a client: whenever a client has a
  competitor, fair rounds in which no lease runs out can count all the way to TOTAL
  without that client ever getting the lock (`StarvationExact`).
- `mvnw` says that it searches up to the file system root, but its loop never tests
  the root; `mvnw.cmd` does. `SearchesAgree` says exactly when this shows.
- One vendor created without a name makes every later query by name fail
  (`GetVendors`). The comment on `vendorById` invokes it with id 0, but ids start
  at 1, so that query always fails (`GetVendor`).
- A nacked message that is never acknowledged keeps the sender waiting for ever
  (`NackWaitsForever`).

## Assumptions

- Lock: client ids are distinct (a client's id is its index), shared memory is
  sequentially consistent, all clients use the same Redis server for the key, the
  counter starts at or below TOTAL. Time is in milliseconds and a key is gone from
  its deadline on. "Well timed" means that whoever has passed the
  re-check reaches the end of its `unlock` less than ten seconds after its SET;
  "timely" asks the same of a holder that has not yet re-checked the counter.
  Neither is assumed where a theorem does not say so.
- Page: `parameters` lists its keys as JavaScript does, array indices first and in
  ascending order, then the others in order of creation; `ParseOrderExact` says what
  that comes to for a parsed URL. What `ParsePrint` says of
  the values, and `PrintInjective`, hold for every other order as well. Assigning a
  string to the key `__proto__` has no effect, as in JavaScript. `replaceState`
  stores the string it is given, and a bare `?` reads back as the empty search.
  The reformatting of `variables` on opening is an arbitrary function of its text.
- Tracker: the broker confirms only messages that have been published, on an open
  channel, and fewer than 2^63 - 1 messages are sent.
- Batch: the workers of the first pass get to the futures at arbitrary times after
  the call; only `PassBounded` asks that a given number of them, possibly one, keep
  taking futures while any are left. And
  whether a future is done, and what it holds, is fixed for the duration of one
  visit of the second.
- Base directory: the start path exists and is given by its components.

## Model

| member | source | states |
|---|---|---|
| `LeaseLockProgram.ProtocolIsProgram` | tech-redis/src/test/java/com/study/liyq/techredis/TechRedisConfigurationTests.java:92-121 | under every schedule the protocol and the structured program (a `while` around a `while` with a short-circuit guard, a `return`, an increment wrapping as `int`, an `unlock`) go through the same states, statement for statement, with the same clock, counter and key |
| `LeaseLockProgram.FairProgramsFinish` | tech-redis/src/test/java/com/study/liyq/techredis/TechRedisConfigurationTests.java:92-121 | that program ends, every thread at its end and the counter at TOTAL, under every schedule of enough rounds in which no lease runs out because no time passes |
| `LeaseLockServer.HeldExact` | tech-redis/src/test/java/com/study/liyq/techredis/TechRedisConfigurationTests.java:58-90 | in every run, timed or not, GET answers with a client's id if and only if a SET of that client was answered with OK less than ten seconds ago and no DEL by anyone has come since |
| `LeaseLockServer.StepFrame` | tech-redis/src/test/java/com/study/liyq/techredis/TechRedisConfigurationTests.java:58-121 | the key changes only at a SET or a DEL, the counter only at the write half of an increment, and no step touches another client or the clock |
| `LeaseLockServer.KeyCommands` | tech-redis/src/test/java/com/study/liyq/techredis/TechRedisConfigurationTests.java:58-90 | SET with NX and EX 10 takes a key that is absent or ten seconds old and no other; DEL removes the key whosever it is |
| `LeaseLockSafety.LiveLeaseStaysHeld` | tech-redis/src/test/java/com/study/liyq/techredis/TechRedisConfigurationTests.java:58-121 | in every well-timed run the server still holds the key for a client that is inside its unlock-bound section or otherwise in time: no such lease expires or is deleted by another |
| `LeaseLockSafety.MutualExclusion` | tech-redis/src/test/java/com/study/liyq/techredis/TechRedisConfigurationTests.java:92-121 | at most one client is between the re-check and the end of `unlock`, it got there by a successful SET, and no other client has an unexpired lease, for any number of clients and every well-timed schedule |
| `LeaseLockSafety.OneHolder` | tech-redis/src/test/java/com/study/liyq/techredis/TechRedisConfigurationTests.java:58-121 | if holders are also in time at the re-check, at most one client is anywhere between a successful `lock` and the end of `unlock` |
| `LeaseLockSafety.StepInv` | tech-redis/src/test/java/com/study/liyq/techredis/TechRedisConfigurationTests.java:58-121 | the invariant behind these results is kept by every step of every client and by time, and the counter moves by one exactly at a write |
| `LeaseLockSafety.NoIncrementLost` | tech-redis/src/test/java/com/study/liyq/techredis/TechRedisConfigurationTests.java:97-113 | the counter is its start value plus the completed increments and never above TOTAL; once one client has returned it is TOTAL exactly |
| `LeaseLockSafety.CounterNeverFalls` | tech-redis/src/test/java/com/study/liyq/techredis/TechRedisConfigurationTests.java:97-113 | between any two moments of a well-timed run the counter does not fall |
| `LeaseLockSafety.AbandonedLock` | tech-redis/src/test/java/com/study/liyq/techredis/TechRedisConfigurationTests.java:107-110 | a live key whose owner is not inside the lock was left by a client that returned at the re-check, and then the counter is at TOTAL |
| `LeaseLockAbandoned.AbandonedLockExact` | tech-redis/src/test/java/com/study/liyq/techredis/TechRedisConfigurationTests.java:97-118 | some well-timed run ends with every client returned and the key still held if and only if two clients compete for any work: a client that returns at the re-check does not unlock |
| `LeaseLockUnlock.StrayDeleteNeedsExpiry` | tech-redis/src/test/java/com/study/liyq/techredis/TechRedisConfigurationTests.java:74-90 | in every run, timed or not, a DEL that removes another client's key is preceded by a lease running out while its owner was between its matching GET and its DEL |
| `LeaseLockUnlock.ReleasesOwnLeaseIffInTime` | tech-redis/src/test/java/com/study/liyq/techredis/TechRedisConfigurationTests.java:79-90 | while no DEL has been stray, the next DEL finds its caller's own lease if and only if it comes less than ten seconds after the SET |
| `LeaseLockUnlock.DeletesInTimeAreNotStray` | tech-redis/src/test/java/com/study/liyq/techredis/TechRedisConfigurationTests.java:74-90 | a run whose DELs all come in time never releases another client's lock |
| `LeaseLockUnlock.UnlockPromiseExact` | tech-redis/src/test/java/com/study/liyq/techredis/TechRedisConfigurationTests.java:74-90 | no run releases another client's lock if and only if there are fewer than two clients or nothing to count |
| `LeaseLockLostIncrement.LostIncrementExact` | tech-redis/src/test/java/com/study/liyq/techredis/TechRedisConfigurationTests.java:74-120 | some complete run, with every client returned and every DEL less than ten seconds after its SET, loses an increment if and only if two clients compete for any work |
| `LeaseLockLiveness.ReturnsWithinFourSteps` | tech-redis/src/test/java/com/study/liyq/techredis/TechRedisConfigurationTests.java:97-118 | from the moment the counter is at TOTAL, a client returns within four of its own steps, in every well-timed interleaving and whoever still holds the key |
| `LeaseLockLiveness.RunToReturn` | tech-redis/src/test/java/com/study/liyq/techredis/TechRedisConfigurationTests.java:92-121 | from any state at all one client can be run to its return, by a decreasing measure, without touching the others, and in time if nobody else is inside |
| `LeaseLockLiveness.EveryRunCanFinish` | tech-redis/src/test/java/com/study/liyq/techredis/TechRedisConfigurationTests.java:92-121 | every run, timed or not, can be continued until all clients have returned |
| `LeaseLockLiveness.TimelyRunCanFinish` | tech-redis/src/test/java/com/study/liyq/techredis/TechRedisConfigurationTests.java:92-121 | a timely run can be continued, still timely, until all clients have returned, and the counter is TOTAL |
| `LeaseLockFairness.LocksBounded` | tech-redis/src/test/java/com/study/liyq/techredis/TechRedisConfigurationTests.java:97-118 | in every well-timed run the lock is taken at most TOTAL - start + n times |
| `LeaseLockFairness.RoundTakesLock` | tech-redis/src/test/java/com/study/liyq/techredis/TechRedisConfigurationTests.java:97-118 | a well-timed stretch that gives every client eight steps takes the lock at least once, or ends with the counter at TOTAL |
| `LeaseLockFairness.FairRunsFinish` | tech-redis/src/test/java/com/study/liyq/techredis/TechRedisConfigurationTests.java:92-121 | every well-timed run of TOTAL - start + n + 2 rounds, each giving every client at least eight steps in any interleaving, ends with all clients returned and the counter at TOTAL |
| `LeaseLockFairness.InstantRunsAreWellTimed` | tech-redis/src/test/java/com/study/liyq/techredis/TechRedisConfigurationTests.java:92-121 | every interleaving in which no time passes is a well-timed run, so these results speak of all schedulers |
| `LeaseLockStarvation.StarvationExact` | tech-redis/src/test/java/com/study/liyq/techredis/TechRedisConfigurationTests.java:97-118 | fair and well-timed rounds can count to TOTAL without a given client ever taking the lock if and only if it has a competitor or there is nothing to count |
| `LeaseLockCluster.Cluster.Lock` | tech-redis/src/test/java/com/study/liyq/techredis/TechRedisConfigurationTests.java:58-72 | answers OK exactly when there is no key whose deadline is still to come, and only then sets it, until 10000 milliseconds from now |
| `LeaseLockCluster.Cluster.Advance` | tech-redis/src/test/java/com/study/liyq/techredis/TechRedisConfigurationTests.java:79-119 | changing key, counter and client in place is one step of the protocol |
| `LeaseLockCluster.Cluster.WaitForLock` | tech-redis/src/test/java/com/study/liyq/techredis/TechRedisConfigurationTests.java:98-105 | the inner loop is a run of the protocol in which only this client steps and time passes in ten-millisecond sleeps; it ends holding the lock, less than one sleep after the deadline of whatever key was in the way |
| `LeaseLockCluster.Cluster.IncrementAndUnlock` | tech-redis/src/test/java/com/study/liyq/techredis/TechRedisConfigurationTests.java:107-116 | a holder that is still in time adds one to the counter and leaves the key free, by steps of the protocol alone |
| `LeaseLockCluster.Cluster.RunAlone` | tech-redis/src/test/java/com/study/liyq/techredis/TechRedisConfigurationTests.java:95-120 | undisturbed, `run` is a run of the protocol in which only this client steps, between ten-millisecond sleeps; it drives the counter to TOTAL, releases the key and returns, whatever key was left behind |
| `Utf8.Utf8Exact` | tech-springboot-graphql-sqqr/src/main/resources/static/graphiql/index.html:51-52 | the octets of a character decode to it and no other octets do: overlong forms, surrogates and truncated sequences are refused |
| `Utf8.GrammarExact` | tech-springboot-graphql-sqqr/src/main/resources/static/graphiql/index.html:51-52 | the decoder accepts exactly the octet sequences of the grammar of section 4 of RFC 3629 |
| `Utf8.OrderExact` | tech-springboot-graphql-sqqr/src/main/resources/static/graphiql/index.html:88-89 | octet sequences compare, octet by octet, as the characters they encode do |
| `Utf8.EncodingExact` | tech-springboot-graphql-sqqr/src/main/resources/static/graphiql/index.html:48-89 | UTF-8 is the one encoding of the characters by all sentences of that grammar that keeps their order, which fixes every octet |
| `UriComponent.LeftAloneExact` | tech-springboot-graphql-sqqr/src/main/resources/static/graphiql/index.html:88-89 | the encoder leaves a character as it is if and only if it is a letter, a digit or one of nine listed marks, 71 characters in all |
| `UriComponent.HexValueExact` | tech-springboot-graphql-sqqr/src/main/resources/static/graphiql/index.html:51-52 | the decoder reads a character as the digit n if and only if it is the n-th hexadecimal digit in upper or lower case |
| `UriComponent.PlainTextDecodes` | tech-springboot-graphql-sqqr/src/main/resources/static/graphiql/index.html:51-52 | text without a percent sign decodes to itself, plus signs included |
| `UriComponent.DecodeEncode` | tech-springboot-graphql-sqqr/src/main/resources/static/graphiql/index.html:48-53 | component decoding undoes component encoding on every string |
| `UriComponent.EncodedAlphabet` | tech-springboot-graphql-sqqr/src/main/resources/static/graphiql/index.html:88-90 | an encoded component has only those 71 characters and percent signs, so no `&` and no `=` |
| `UriComponent.EncodeCharExact` | tech-springboot-graphql-sqqr/src/main/resources/static/graphiql/index.html:88-89 | among all spellings of a character the encoder takes the character itself if it is unreserved, otherwise its octets with upper-case digits |
| `UriComponent.DecodeExact` | tech-springboot-graphql-sqqr/src/main/resources/static/graphiql/index.html:51-52 | a text decodes to a string if and only if it spells it character by character, literally or in percent-encoded UTF-8 of either hex case; anything else is a URIError |
| `SearchString.ParsePrint` | tech-springboot-graphql-sqqr/src/main/resources/static/graphiql/index.html:46-92 | parsing the printed search string gives back exactly the non-empty parameters, for every order in which the keys are listed, and in the same order for the one JavaScript uses |
| `SearchString.PrintExact` | tech-springboot-graphql-sqqr/src/main/resources/static/graphiql/index.html:84-92 | a text is the URL shown for the parameters if and only if it is a question mark followed by one piece for each key with a non-empty value, in order and between ampersands, which cut at its first equals sign is the encoded key and the encoded value |
| `SearchString.NothingShownExact` | tech-springboot-graphql-sqqr/src/main/resources/static/graphiql/index.html:84-92 | the search string read back is empty if and only if every parameter is empty |
| `SearchString.PrintNonEmpty` | tech-springboot-graphql-sqqr/src/main/resources/static/graphiql/index.html:84-92 | re-printing the non-empty parameters gives the same URL character for character |
| `SearchString.PrintInjective` | tech-springboot-graphql-sqqr/src/main/resources/static/graphiql/index.html:84-92 | two parameter objects show the same URL if and only if their non-empty parts agree, key order included, whatever it is |
| `SearchString.ParseExact` | tech-springboot-graphql-sqqr/src/main/resources/static/graphiql/index.html:46-54 | any search string parses if and only if both halves of every entry with an equals sign are spellings, and each key but `__proto__` then has the value of the last entry that spells it |
| `SearchString.EntriesExact` | tech-springboot-graphql-sqqr/src/main/resources/static/graphiql/index.html:47-48 | the entries of a search string are the only list of pieces without an ampersand whose join is the string without its first character |
| `SearchString.ParseOrderExact` | tech-springboot-graphql-sqqr/src/main/resources/static/graphiql/index.html:46-54 | of any two keys parsed, array indices are listed first and by number, the others in the order of the first entry that spells each |
| `PropertyKeys.InsertKeeps` | tech-springboot-graphql-sqqr/src/main/resources/static/graphiql/index.html:51-85 | assigning a new key adds that key alone to what `Object.keys` lists, and keeps array indices ascending and first |
| `PropertyKeys.ArrayIndexExact` | tech-springboot-graphql-sqqr/src/main/resources/static/graphiql/index.html:85 | the keys listed first are exactly the decimal numerals of 0 to 2^32 - 2 |
| `SearchString.LastEditWins` | tech-springboot-graphql-sqqr/src/main/resources/static/graphiql/index.html:69-82 | after any edits the last edit of the query decides `query`, the last edit of the variables `variables`, and the last edit of the operation name `operationName` |
| `SearchString.EditsTakeEffect` | tech-springboot-graphql-sqqr/src/main/resources/static/graphiql/index.html:69-82 | after any edits each parameter has the text last given to it, or the one it was opened with |
| `SearchString.UrlFollowsEdits` | tech-springboot-graphql-sqqr/src/main/resources/static/graphiql/index.html:46-92 | for every search string that parses and every non-empty sequence of edits, the URL shown parses to the current non-empty parameters and re-prints to itself |
| `SearchString.SharedLink` | tech-springboot-graphql-sqqr/src/main/resources/static/graphiql/index.html:37-65 | whoever opens the URL of an edited session sees, of the keys edited, every non-empty text as last given, `variables` through whatever the reader's page reformats it to, and no emptied one |
| `GraphiqlPage.Session.ParseSearch` | tech-springboot-graphql-sqqr/src/main/resources/static/graphiql/index.html:46-54 | the assigning loop fails exactly when a half of some entry with an equals sign is no spelling, and otherwise gives each key but `__proto__` the value of the last entry that spells it |
| `GraphiqlPage.Session.Load` | tech-springboot-graphql-sqqr/src/main/resources/static/graphiql/index.html:46-65 | opening parses and reformats a non-empty `variables` |
| `GraphiqlPage.Session.UpdateURL` | tech-springboot-graphql-sqqr/src/main/resources/static/graphiql/index.html:84-92 | the URL put in place begins with a question mark, has one piece for each key with a non-empty value and in their order, parses to the non-empty parameters, and printing those gives that URL |
| `GraphiqlPage.Session.OnEditQuery` | tech-springboot-graphql-sqqr/src/main/resources/static/graphiql/index.html:69-72 | sets the value of the key `query` and of no other, and the URL follows |
| `GraphiqlPage.Session.OnEditVariables` | tech-springboot-graphql-sqqr/src/main/resources/static/graphiql/index.html:74-77 | sets the value of the key `variables` and of no other, and the URL follows |
| `GraphiqlPage.Session.OnEditOperationName` | tech-springboot-graphql-sqqr/src/main/resources/static/graphiql/index.html:79-82 | sets the value of the key `operationName` and of no other, and the URL follows |
| `ConfirmTracker.NoAckBeforeAdd` | tech-rabbit/src/test/java/com/example/messagingrabbitmq/exchange/confirm/EmitLogTopic.java:53-59 | before any acknowledgement for a tag there is an earlier step that published its message, and before that one a step that put the tag into the set |
| `ConfirmTracker.UnconfirmedExact` | tech-rabbit/src/test/java/com/example/messagingrabbitmq/exchange/confirm/EmitLogTopic.java:27-59 | in every interleaving the set is exactly the recorded tags that no single and no cumulative acknowledgement so far is for; nacks never change it |
| `ConfirmTracker.WaitEndsIffAllAcked` | tech-rabbit/src/test/java/com/example/messagingrabbitmq/exchange/confirm/EmitLogTopic.java:33-64 | the next test of the wait loop ends it if and only if every message has been acknowledged, in any order and mixture |
| `ConfirmTracker.ClosedMeansAllAcked` | tech-rabbit/src/test/java/com/example/messagingrabbitmq/exchange/confirm/EmitLogTopic.java:61-65 | a run that has closed the channel has an acknowledgement for every message |
| `ConfirmTracker.NackWaitsForever` | tech-rabbit/src/test/java/com/example/messagingrabbitmq/exchange/confirm/EmitLogTopic.java:42-64 | a nacked message that is never acknowledged stays in the set and keeps the channel open in every continuation |
| `ConfirmTracker.ExitMeansPositivelyAcked` | tech-rabbit/src/test/java/com/example/messagingrabbitmq/exchange/confirm/EmitLogTopic.java:42-64 | if no nacked message is acknowledged later, the wait ends only when every message was acknowledged before any nack for it |
| `ConfirmTracker.EveryRunCanClose` | tech-rabbit/src/test/java/com/example/messagingrabbitmq/exchange/confirm/EmitLogTopic.java:53-65 | every run can be continued to the closing of the channel |
| `ConfirmTracker.CumulativeAckExact` | tech-rabbit/src/test/java/com/example/messagingrabbitmq/exchange/confirm/EmitLogTopic.java:33-36 | a cumulative acknowledgement clears everything up to its tag, except for the largest `long`, where tag + 1 wraps and nothing is cleared |
| `ConfirmPublisher.Publisher.HandleAck` | tech-rabbit/src/test/java/com/example/messagingrabbitmq/exchange/confirm/EmitLogTopic.java:29-40 | the handler's update in place is the protocol's acknowledgement |
| `ConfirmPublisher.Publisher.HandleNack` | tech-rabbit/src/test/java/com/example/messagingrabbitmq/exchange/confirm/EmitLogTopic.java:42-45 | a nack is received and changes nothing |
| `ConfirmPublisher.Publisher.PublishAll` | tech-rabbit/src/test/java/com/example/messagingrabbitmq/exchange/confirm/EmitLogTopic.java:53-59 | every confirmation that falls before or between the steps of the publishing loop is worked off at its place, and the set is left with the messages none of them acknowledged |
| `ConfirmPublisher.Publisher.WaitForConfirms` | tech-rabbit/src/test/java/com/example/messagingrabbitmq/exchange/confirm/EmitLogTopic.java:61-66 | the batches that arrive are worked off in order until the set is empty and no further; the channel closes exactly when every message has been acknowledged before or by one of the batches |
| `BatchCollector.Collect` | tech-springboot-graphql-sqqr/src/main/java/io/leangen/spqr/samples/demo/controller/GraphQLSampleController.java:118-154 | the results are those of the requests that had not completed with an exception when visited, in order: the data of a completed one, null for a pending one, and nothing else |
| `BatchCollector.WaitEndExact` | tech-springboot-graphql-sqqr/src/main/java/io/leangen/spqr/samples/demo/controller/GraphQLSampleController.java:120-127 | a wait of the first pass ends at the first moment at which the future has completed or five seconds are over |
| `BatchCollector.InOrderUnique` | tech-springboot-graphql-sqqr/src/main/java/io/leangen/spqr/samples/demo/controller/GraphQLSampleController.java:135-154 | that description determines the result list |
| `BatchCollector.AlignedIffNoneFailed` | tech-springboot-graphql-sqqr/src/main/java/io/leangen/spqr/samples/demo/controller/GraphQLSampleController.java:135-154 | results and requests have the same length, and match index by index, if and only if no future had failed |
| `BatchCollector.AwaitAll` | tech-springboot-graphql-sqqr/src/main/java/io/leangen/spqr/samples/demo/controller/GraphQLSampleController.java:120-132 | the first pass ends with the last of the five-second waits, neither earlier nor later |
| `BatchCollector.PassBounded` | tech-springboot-graphql-sqqr/src/main/java/io/leangen/spqr/samples/demo/controller/GraphQLSampleController.java:120-132 | if some number of workers keep taking futures while any are left, the pass is over within as many five-second waits as they need rounds for the batch; with the calling thread alone, within one wait a request |
| `BatchCollector.BoundReached` | tech-springboot-graphql-sqqr/src/main/java/io/leangen/spqr/samples/demo/controller/GraphQLSampleController.java:120-132 | that bound cannot be lowered: a batch that never completes can take exactly so long, for every size of the batch and number of workers |
| `BatchCollector.ExecuteBatch` | tech-springboot-graphql-sqqr/src/main/java/io/leangen/spqr/samples/demo/controller/GraphQLSampleController.java:106-156 | both passes together: the results are in order, a request left pending outlasted its own five seconds, and a batch that completes in time with data comes back whole |
| `BatchCollector.PendingMeansLate` | tech-springboot-graphql-sqqr/src/main/java/io/leangen/spqr/samples/demo/controller/GraphQLSampleController.java:120-154 | the same for every order and time of the visits after the waits |
| `VendorStore.AddExact` | tech-springboot-graphql-sqqr/src/main/java/io/leangen/spqr/samples/demo/dto/Vendor.java:64-77 | adding to the set appends the vendor unless one with its id is there, whatever its name and address |
| `VendorStore.StoredExact` | tech-springboot-graphql-sqqr/src/main/java/io/leangen/spqr/samples/demo/query/annotated/VendorQuery.java:32-38 | after any serial run of creations the ids are exactly 1 to n in order, and no vendor is dropped |
| `VendorStore.IdsAreStable` | tech-springboot-graphql-sqqr/src/main/java/io/leangen/spqr/samples/demo/query/annotated/VendorQuery.java:32-57 | later creations leave every earlier vendor under its id |
| `VendorStore.NamedCount` | tech-springboot-graphql-sqqr/src/main/java/io/leangen/spqr/samples/demo/dto/Vendor.java:64-77 | equality by id merges no two vendors of a name: there are as many as creations with it |
| `VendorStore.NamesPartition` | tech-springboot-graphql-sqqr/src/main/java/io/leangen/spqr/samples/demo/query/annotated/VendorQuery.java:70-74 | over all distinct names the results cover the store, are pairwise disjoint, and together have as many members as there were creations |
| `VendorStore.VendorQuery.CreateVendor` | tech-springboot-graphql-sqqr/src/main/java/io/leangen/spqr/samples/demo/query/annotated/VendorQuery.java:32-38 | appends the vendor under the next id; a null argument fails and changes nothing |
| `VendorStore.VendorQuery.GetVendor` | tech-springboot-graphql-sqqr/src/main/java/io/leangen/spqr/samples/demo/query/annotated/VendorQuery.java:52-57 | every id handed out resolves to the vendor created with it, every other id fails |
| `VendorStore.VendorQuery.GetVendors` | tech-springboot-graphql-sqqr/src/main/java/io/leangen/spqr/samples/demo/query/annotated/VendorQuery.java:70-74 | fails exactly when some vendor was created without a name; otherwise finds exactly the vendors of that name |
| `BaseDirectory.NearestExact` | tech-es/mvnw:165-166 | what the searches look for: a hit on the way up with none below it, or nothing if there is none on the way |
| `BaseDirectory.FindMavenBasedir` | tech-es/mvnw:167-189 | terminates with the nearest ancestor-or-self below the root holding a `.mvn` directory, or the start; an empty argument is an error |
| `BaseDirectory.CommandShell.FindBaseDir` | tech-es/mvnw.cmd:88-109 | returns the nearest ancestor-or-self holding `.mvn`, root included, or the start, and restores the current directory |
| `BaseDirectory.SearchesAgree` | tech-es/mvnw:175-188 | the two searches differ exactly when the start is below the root and the root alone holds `.mvn` |
| `BaseDirectory.SearchesAgreeExact` | tech-es/mvnw.cmd:91-109 | when `.mvn` may also be a plain file, the searches agree if and only if there is none on the path, or the deepest is a directory below the root, or the start has one and no directory below the root does |
| `Joiner.JoinStrings` | tech-rabbit/src/test/java/com/example/messagingrabbitmq/exchange/confirm/EmitLogTopic.java:81-91 | the accumulating loop computes the join |
| `Joiner.JoinStringsFrom` | tech-rabbit/src/test/java/com/example/messagingrabbitmq/exchange/delay/DelayProducer.java:48-57 | from a start index on it is the join of the tail, empty past the end; a negative index fails unless the list is empty |
| `Joiner.JoinAppend` | tech-rabbit/src/test/java/com/example/messagingrabbitmq/exchange/confirm/EmitLogTopic.java:81-91 | what a join is: nothing for no strings, the string for one, and for two lists one after the other their joins with the delimiter between |
| `Joiner.SplitJoin` | tech-springboot-graphql-sqqr/src/main/resources/static/graphiql/index.html:48-90 | splitting recovers every non-empty list of pieces without the delimiter |
| `Joiner.JoinInjective` | tech-springboot-graphql-sqqr/src/main/resources/static/graphiql/index.html:84-92 | different lists of pieces without the delimiter never join to the same string |
| `Joiner.JoinSplit` | tech-springboot-graphql-sqqr/src/main/resources/static/graphiql/index.html:48-90 | joining recovers every string from its pieces, and no piece has the delimiter |

## Left out

- Thread interrupts, connection failures and exceptions in `CounterIncr.run`: the `break` of an interrupted sleep would enter the increment without the lock.
- The duration of the sleep in the interleaved lock model: sleeping is a step without effect there; `WaitForLock` has its ten milliseconds.
- Key-to-shard hashing, replication and failover of Redis: the key is one cell on one server.
- The Java memory model: `COUNTER` is not volatile in the source, the model is sequentially consistent.
- Parameter values other than strings (an edit handler called with undefined), and strings with lone surrogates, on which `encodeURIComponent` throws.
- The browser's own normalisation of a URL given to `replaceState`, React rendering and `fetch`.
- Concurrent `createVendor` calls, the setters of `Vendor`, its stock of products, and mutation of a returned vendor through its reference: vendors are values.
- `singleRequest`, GraphQL execution itself, and interruption of a thread waiting in `executeBatch`.
- A start path that does not exist, on which the loop of `find_maven_basedir` never ends, and symbolic links.
- The message texts of the two producers, `getMessage` and `getSeverity`.
- Delayed and dead-letter queues: decided by the broker's settings.
- Spring, Jedis, Lettuce, memcached, Curator, Netty and Elasticsearch configuration and their demos: library setup with no logic of its own.
