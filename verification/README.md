# hermes-walkie-talkie: a verified model

`hermes-walkie-talkie` lets several processes of one user exchange messages through a shared
registry, Unix sockets and a SQLite store. This project models its protocol core and proves what the
core is for: a message is handed to the host at most once, a stream of frames survives any chunking,
a broadcast is sent once and reported alike to everybody, a peer's three records agree as long as its file
can be read, untrusted text stays inside its boundary, and limits hold. `dafny verify dfyconfig.toml`
checks all of it.

| file | what it models |
|---|---|
| Models.dfy | the closed vocabularies |
| Framing.dfy, EnvelopeCodec.dfy, Connection.dfy | the frame decoder, the envelope codec, one connection of the supervisor |
| Calendar.dfy | instants as microseconds since the beginning of the calendar |
| JsonText.dfy, Challenge.dfy | the ASCII JSON text of a record file and of a challenge's answer, and its size |
| RateLimiting.dfy, Store.dfy | the sliding-window limiter, the message table and its retention |
| Inbound.dfy | metrics, policy engine and the session's inbox, one call at a time |
| InboundProtocol.dfy, InboundRefusals.dfy | concurrent inbound, release and refuse calls for one message id |
| ConcurrentCapacity.dfy | concurrent inbound calls with different ids for one recipient |
| Broadcast.dfy | concurrent `fan_out` callers and their pool workers |
| Registry.dfy, Supervisor.dfy, Sessions.dfy, Discovery.dfy | record files and fences, the supervisor's maps, the session lifecycle, challenge, resolution and repair |
| Requests.dfy | the request state table, its store and event log |
| Markers.dfy | escaping, sanitising and the two boundaries |

Whatever a contract says through a function of the model, another statement says without it: what a
decision, an answer, an attempt or a comparison comes to is spelled out case by case, in numbers or in text.

Objects whose methods update their fields are classes; concurrent protocols are step systems whose
runs are sequences of actions; host answers, socket outcomes, clocks, fresh ids and failures are
parameters or arbitrary values. Step systems take a guard, so that a property which does not hold of
every run is stated with the exact guard under which it does.

## Where the code and its own words differ

The model follows the code. Each point below is a theorem.

* The pending count includes the message just claimed, so a capacity of `c` admits `c - 1` messages
  (`Inbound.CapacityIsOneLess`). Handled one at a time, that bound holds; with concurrent calls it
  holds exactly if the engine is not shared, or no other call registers between a registration and its
  evaluation, or `c <= 1` (`ConcurrentCapacity.NeverFullIff`).
* "At most `burst` at once" holds of every run, for a window longer than a second, exactly when
  `sustained <= burst + 1`, with a burst below one counted as one; the defaults 5 and 20 do not satisfy
  it. `RateLimiting.BurstEverywhereIff` gives the condition for every window and limit.
  A session with its own policy is never rate limited (`Inbound.SessionPolicyIsNeverRateLimited`).
* One injection per message is kept by inbound calls alone. With releases, at most one is accepted
  exactly when a release waits for other releases and for the inbound call
  (`InboundProtocol.AtMostOnceIff`). Concurrent duplicates return one state exactly when a duplicate
  waits for the winner (`InboundProtocol.ConvergesIff`). A refusal that returned true can be undone by
  the inbound call or by a release; it is final exactly when it waits for the former and excludes the
  latter (`InboundRefusals.RefusalsAreFinalIff`), and `queued` means accepted exactly when releases
  exclude each other and refusals and wait for the inbound call (`InboundRefusals.QueuedIsAcceptedIff`).
* Duplicates and held messages are counted as failed deliveries, so it is delivered plus failed that
  equals the number of calls (`Inbound.SessionInbox.OnInbound`).
* The name sanitiser removes each tag in one pass, so a tag nested in itself comes out whole and the
  message marker is not always well formed (`Markers.SanitisedNameMayBreakTheBoundary`); the exact
  condition is `Markers.MessageBoundaryIff`.
* If the engine's injected `resolve` raises, the broadcast stays in flight, childless and unsent, in every
  later run (`Broadcast.StrandedRuns`). Some run does so exactly if the group has a member beside the
  sender (`Broadcast.StrandedIsReachableIff`); every other broadcast in flight can complete
  (`Broadcast.CompletesIff`). The repository's own callback, `_broadcast_resolve`
  (`hermes_peer/sessions.py:1200-1206`), turns exceptions into no result and so never raises.
* A negative retry limit reports children as queued that were never sent (`Broadcast.QueuedMeansSent`).
  The `failures` of the call that fanned out and of later readers agree exactly when every member is
  delivered or unreachable (`Broadcast.FailuresAgreeIff`), so never when the sender is a member
  (`Broadcast.SenderInGroupMakesFailuresDiffer`).
* A failing `register_peer` restores the maps exactly for an id that was not registered, and a
  successful one keeps them coherent exactly then (`Supervisors.RolledBackRestoresIff`,
  `Supervisors.RegisteredCoherentIff`). A bind that fails because the path is in use removes the socket
  file of whoever uses it (`Supervisors.PeerRuntimeManager.RegisterPeer`).
* The registry writes a record file of any size and reads none over 65,536 bytes. No fenced writer ever
  changes or removes such a file (`Registries.UnreadableIsFinal`), and a record stays readable exactly as
  long as everything written over it was within the ceiling (`Registries.SuccessorsDecide`,
  `Registries.StaysReadableIff`). The three copies of a session's record agree exactly as long as that is
  so: a 64 KiB note on a turn loses the registry's copy, the end of the turn then changes nothing, and the
  file outlives the session (`Sessions.LongNoteStrandsTheRecord`). A session id of 32 KiB, which the file
  holds twice, is never listed (`Sessions.LongSessionIdIsNeverListed`).
* Marking a record closing makes its file longer, so a teardown removes the record exactly if the marked
  one can still be read (`Supervisors.ClosingThenRemoveIff`).
* `set_alias` renames the registry record before it checks the alias: the three records agree afterwards
  exactly when the renamed one can be read and the alias is valid or is the name they had
  (`Sessions.PeerSessions.SetAlias`).
* Repair probes through the cache although a comment says it does not. A stale cached failure does no
  harm, because a record at an address with a listener is never deleted. A cached success that stays
  unexpired keeps its dead record, and a repair that takes no time deletes all dead records if and only if
  no cached success shields one (`Discovery.DiscoveryService.RepairStale`); a peer that answers and closes
  right before the repair is such a case (`Discovery.CachedSuccessKeepsADeadRecord`).
* A request whose recipient is empty is stored before it is rejected, `create_request` reports the state
  before enqueueing (`Requests.RequestStore.Create`, `Requests.RequestStore.CreateRequest`).
* One frame can make an exception leave the supervisor's loop. This happens exactly when a payload is
  reached that has an unsupported protocol id, a timestamp that is no text, or an error of the JSON or
  timestamp library that nobody expects (`Connections.DecodingEscapesIff`), or a challenge to a registered
  peer whose identity text is over 32 KiB (`Connections.AnswerFits`); `Connections.Connection.Service`
  says so of the whole stream. Such a challenge stays unanswered on an open connection, and an open
  session with 32 KiB of capabilities, which its file holds once, is listed and never found alive
  (`Discovery.LargeCapabilitiesAreSilent`); in general a session is found alive exactly if its record can be
  read and its identity answered (`Discovery.OpenSessionsAnswer`).

## Model

| member | source | states |
|---|---|---|
| Framing.BigEndianIsInjective | agent_peer/codec.py:164-165 | reading a big-endian prefix and writing it back gives the same bytes, so a prefix has one length and a length one prefix |
| Framing.LengthPrefix | agent_peer/codec.py:68 | every payload up to the ceiling has a 4-byte prefix that reads back as its length |
| Framing.FirstFrameInBytes | agent_peer/codec.py:160-176 | the first frame in bytes: four bytes announce its length, the first counting most; over 65,536 it is too long, and it is whole once that many bytes follow |
| Framing.Frame | agent_peer/codec.py:63-68 | a payload is refused exactly when it is over 64 KiB; otherwise the frame carries its length and the payload unchanged |
| Framing.FrameDecoder.Next | agent_peer/codec.py:160-176 | one turn of the loop takes exactly the first frame of what is pending, waits with less than a prefix or less than the pending length, and consumes nothing of an oversize frame |
| Framing.FrameDecoder.Feed | agent_peer/codec.py:157-182 | the incremental decoder with its buffer and pending length yields the items and the fault of one scan of everything pending, and parks below 4 bytes or below the announced length |
| Framing.ScanAppend | agent_peer/backends/posix.py:51-71 | what the scan of a stream leaves behind decides everything that later bytes can add |
| Framing.ScanResidual | agent_peer/backends/posix.py:51-71 | a scan that wants more stops in front of an incomplete frame, an oversize one in front of the frame over the ceiling |
| Framing.ChunkingInvariance | agent_peer/backends/posix.py:51-71 | every split of a byte stream into chunks yields the same items, the same first fault and the same rest as feeding it at once |
| Framing.OversizeIsSticky | agent_peer/codec.py:166-169 | after an oversize prefix every later feed fails again and yields nothing |
| Framing.ScanOfFrames | agent_peer/backends/posix.py:33-71 | scanning the concatenated frames of any payloads, empty ones included, yields exactly those payloads and nothing left over |
| Framing.FramesRoundTrip | agent_peer/backends/posix.py:33-71 | any chunking of the concatenated frames yields the payloads back |
| Framing.TruncatedFramesYieldPrefix | agent_peer/backends/posix.py:51-71 | any chunking of a truncated stream of frames yields a prefix of the payloads and no fault |
| EnvelopeCodec.FieldsRoundTrip | agent_peer/codec.py:27-35 | zero-padded decimal fields with their separators parse back to the numbers printed |
| EnvelopeCodec.TimestampRoundTrip | agent_peer/codec.py:27-35 | the UTC text of a valid instant, microseconds included, parses back to it, whatever the library makes of other texts |
| EnvelopeCodec.TimestampReads | agent_peer/codec.py:27-30 | the text of a valid instant, digit by digit: year, month, day, `T`, hour, minute, second, microseconds, `Z` |
| EnvelopeCodec.EarlierIsStrictOrder | agent_peer/models.py:226-229 | the field-wise comparison behind expiry is a strict total order |
| Calendars.BeforeIffFewerMicros | agent_peer/models.py:226-229 | the comparison behind expiry is the comparison of microseconds since the beginning of the calendar |
| Calendars.AcceptedInTime | agent_peer/models.py:190-229 | a document with valid fields is accepted exactly if it was created before it expires and has not expired, expired exactly if only the latter fails, and malformed otherwise |
| EnvelopeCodec.DictToEnvelope | agent_peer/codec.py:71-97 | whatever is decoded satisfies every check of the envelope's constructor and has not expired; an exception outside the expected family leaves exactly when the timestamps are reached and one of them is no text or makes the library raise |
| EnvelopeCodec.ValidFieldsMean | agent_peer/models.py:190-223 | the limits of the fields in numbers: the two protocols, ids, instants, 32 KiB of content, hops from 0 to 4 |
| EnvelopeCodec.ReachedIff | agent_peer/codec.py:71-84 | the timestamps are reached exactly in a document with an identified sender, a protocol and a message id |
| EnvelopeCodec.DecodedIsSaid | agent_peer/codec.py:71-97 | each field of a decoded envelope is what its own member of the document says, and its default if the member is missing or null |
| EnvelopeCodec.EncodedSays | agent_peer/codec.py:38-55 | each member of an encoded envelope says its own field |
| EnvelopeCodec.UuidIsInGroups | agent_peer/models.py:19 | an accepted id is five groups of 8, 4, 4, 4 and 12 hexadecimal digits, with at most a line feed behind them |
| EnvelopeCodec.GroupsMakeUuids | agent_peer/models.py:19 | every such text is accepted |
| EnvelopeCodec.Utf8LengthIsLeast | agent_peer/models.py:209-213 | the size by which content is judged counts for each character the least number of bytes that UTF-8 has room for it in |
| EnvelopeCodec.EnvelopeRoundTrip | agent_peer/codec.py:38-97 | encoding then decoding is the identity on exactly the unexpired envelopes and the expiry error on the others, optional fields included |
| EnvelopeCodec.WireFormIsInjective | agent_peer/codec.py:38-55 | two valid envelopes with the same document are the same envelope |
| EnvelopeCodec.AcceptedEnvelopesAreStable | agent_peer/codec.py:71-97 | whatever document was accepted, in any timestamp shape, re-encoding its envelope gives one that decodes to it again |
| EnvelopeCodec.NonTextTimestampIsUncaught | agent_peer/codec.py:33-35 | any envelope's document with a number, null or object for a timestamp makes the uncaught exception leave |
| Challenges.OversizeIsNotBuildable | agent_peer/runtime.py:616-637 | an identity whose nonce or capabilities reach 32 KiB is over the content ceiling, however it is escaped |
| Connections.AnswerFits | agent_peer/runtime.py:571-637 | every request gets what it deserves: a ping a pong; a challenge the record held and its own nonce, or `unreachable`; anything else the very receipt its handler names, `invalid` for any other text or a handler that raised, `unreachable` without one; except exactly a challenge to a registered peer whose identity text is over the content ceiling, which gets nothing |
| Connections.ReceiptStatesAreTexts | agent_peer/runtime.py:588-590 | the accepted receipt texts are those of the ten receipt states |
| Connections.LongChallengeEscapes | agent_peer/runtime.py:593-637 | a framed challenge to a registered peer with a nonce of 32 KiB is dispatched, gets no reply and stops the serving with an exception |
| Connections.NonTextTimestampEscapes | agent_peer/codec.py:157-182 | so does a frame with a number, null or object for a timestamp, before anything is dispatched |
| Connections.ServeFollowsScan | agent_peer/runtime.py:563-591 | answering while decoding yields the requests, rest and fault of one scan if all have answers, and stops at the first request without one otherwise |
| Connections.Connection.Flush | agent_peer/runtime.py:665-679 | whatever the partial sends, sent plus buffered bytes are unchanged; on an open connection bytes remain exactly when write interest is registered, after an answer that was no success; the connection closes exactly if that answer says that the socket is broken |
| Connections.Connection.ServiceWritable | agent_peer/runtime.py:681-692 | the writable pass flushes exactly an open connection with buffered bytes and write interest, and only moves bytes to the socket |
| Connections.Connection.QueueReply | agent_peer/runtime.py:646-663 | one reply frame joins the stream and is flushed, or, over the frame ceiling, the connection is closed with the stream intact |
| Connections.Connection.Dispatch | agent_peer/runtime.py:571-591 | the reply that the request deserves is queued behind the stream, or, where there is none, nothing changes and an exception leaves |
| Connections.Connection.Turn | agent_peer/codec.py:160-182 | one turn takes one request off the pending bytes and answers it, or stops where the serving stops |
| Connections.Connection.DispatchAll | agent_peer/runtime.py:564-591 | the loop that decodes a request, answers it and goes on serves the pending bytes: which requests were dispatched, which answers queued, what is left, and whether it ended waiting, at a bad frame or with an exception |
| Connections.Connection.ServiceData | agent_peer/runtime.py:563-569 | a chunk is served together with what was pending; a bad frame closes the connection after the requests before it were answered, with `invalid` as the last reply; an exception leaves it open |
| Connections.Connection.Service | agent_peer/runtime.py:548-569 | one readable event keeps sent plus buffered equal to the reply frames and accounts for everything received; an exception leaves exactly when the scan of the bytes meets an unanswerable request or a fault that is no bad frame |
| Connections.ClientSeesReplies | agent_peer/runtime.py:548-692 | for every request chunking, every partial send and every client chunking, the client decodes a prefix of the replies without a fault, all of them once all bytes arrived; on an open connection they are, one by one, what the requests of one scan of everything received deserve of the peers and handlers they found, exactly unless building an answer raised, and then those before that one |
| RateLimiting.RecentIsTheWindow | agent_peer/policy.py:62-63 | popping expired times from the left keeps exactly the times inside the window |
| RateLimiting.AdmitsIff | agent_peer/policy.py:58-71 | a message is admitted exactly if fewer than `sustained` acceptances are inside the window and they are fewer than `burst`, none, or not all of the last second |
| RateLimiting.RateLimiter.PopExpired | agent_peer/policy.py:62-63 | the popping loop computes the recent part of the deque |
| RateLimiting.RateLimiter.Allow | agent_peer/policy.py:58-71 | the decision from the bounded deque is the decision from the pair's whole history of acceptances, and other pairs are not touched |
| RateLimiting.DequeIsTheWindow | agent_peer/policy.py:62-70 | after an acceptance the deque is the accepted history inside the half-open window |
| RateLimiting.SustainedBound | agent_peer/policy.py:64-65 | no window holds more than `sustained` acceptances, in any run |
| RateLimiting.BurstAfterQuiet | agent_peer/policy.py:66-69 | in the first second after an empty window at most `burst` messages (one, if `burst` is smaller) are accepted |
| RateLimiting.LateBurstIsLegal | agent_peer/policy.py:66-69 | one early acceptance followed by any number below `sustained` at a later instant is a run the limiter accepts |
| RateLimiting.BurstWithShortWindowIff | agent_peer/policy.py:48-69 | with a window of at most a second the burst limit holds of every run exactly when all windows that begin within a second together stay below the burst |
| RateLimiting.BurstEverywhereIff | agent_peer/policy.py:48-69 | for all limits and windows the condition under which the burst limit holds of every run; the default limits do not satisfy it |
| Store.MessageStore.Claim | agent_peer/store.py:247-288 | exactly a missing id is inserted; an existing row is returned and not changed |
| Store.MessageStore.Transition | agent_peer/store.py:338-347 | the state and delivery time of an existing row change and nothing else does |
| Store.PendingCountAfterWrite | agent_peer/store.py:370-376 | writing one row moves a recipient's pending count by what the new row counts less what the old one counted |
| Store.PendingMeans | agent_peer/store.py:370-376 | exactly the queued and held rows of the recipient are pending |
| Store.MessageStore.DeleteOlder | agent_peer/store.py:395-405 | for every batch size the batched loop terminates and deletes exactly the rows older than the cutoff, returning their number |
| Store.MessageStore.Retain | agent_peer/store.py:386-422 | both batched loops terminate with only young, unchanged rows: all of them if the cap allows it, otherwise as many as it does and none older than a deleted one; the returned number is the difference in rows |
| Store.SurvivesIff | agent_peer/store.py:386-422 | with distinct times a young row survives exactly when the rows newer than it leave room |
| Store.RetentionIsUnique | agent_peer/store.py:386-422 | with distinct times batching does not matter: the table and the limits determine the survivors |
| Store.RetentionIsIdempotent | agent_peer/store.py:386-422 | retaining again with the same limits deletes nothing |
| Metrics.MetricsRegistry.RecordDelivery | agent_peer/metrics.py:31-40 | one counter moves, and the failure reasons keep summing to the failures |
| PolicyEngines.PolicyEngine.Evaluate | agent_peer/policy.py:113-129 | expired, too many hops, rate limited, over capacity, and then hold, refuse or forward: each decision with the one case that leads to it, in this order; a message that fails one of the first two leaves the limiter's history alone |
| Inbound.ClaimCountsItself | hermes_peer/sessions.py:692-700 | the claim is counted as pending by the very check it is subject to |
| Inbound.DecisionIsHandled | hermes_peer/sessions.py:699-738 | what each decision comes to: receipt, row and injection, case by case |
| Inbound.CapacityIsOneLess | agent_peer/policy.py:120-122 | a fresh message is over capacity exactly when more than `capacity - 2` others are pending |
| Inbound.WithinCapacityMeans | agent_peer/policy.py:120-122 | with the invariant nobody has as many messages waiting as the capacity, if anything waits at all |
| Inbound.SessionPolicyIsNeverRateLimited | hermes_peer/sessions.py:645-655 | an engine made for one call has an empty history and never answers `rate_limited` |
| Inbound.CapacityAfterInbound | hermes_peer/sessions.py:692-738 | a fresh message that becomes or stays pending keeps every recipient at or below `capacity - 1` |
| Inbound.CapacityAfterHandling | hermes_peer/sessions.py:795-830 | releasing or refusing a held message never raises a recipient's pending number |
| Inbound.AcceptedAfterInbound | hermes_peer/sessions.py:694-738 | after an inbound call a message is queued exactly if the host accepted it exactly once, and otherwise it was never accepted |
| Inbound.AcceptedAfterHandling | hermes_peer/sessions.py:795-830 | a release or refusal keeps queued equal to accepted exactly once |
| Inbound.HostTextIsWellBounded | hermes_peer/delivery.py:165-179 | messages whose header fields hold no `<` reach the host inside one well-formed boundary |
| Inbound.HostReadsTheHeader | hermes_peer/delivery.py:165-179 | the host reads name, peer id and message id off the first lines, in this order, and then the content |
| Inbound.SessionInbox.Deliver | hermes_peer/delivery.py:124-188 | no target or an unforced duplicate injects nothing; otherwise one injection, and the row follows the host's answer |
| Inbound.SessionInbox.OnInbound | hermes_peer/sessions.py:657-743 | under serial calls a fresh message ends expired, invalid, rate limited, over capacity, held, refused without content or queued, each in its own case, with exactly one injection if it is forwarded to a target and none otherwise; a duplicate changes no row, policy or limiter and injects nothing; capacity, at-most-once acceptance and delivered + failed = calls are kept |
| Inbound.SessionInbox.ReleaseMessage | hermes_peer/sessions.py:795-815 | true exactly for a held message of the selected session's peer that the host now accepts, which becomes queued with one more accepted injection of what the row holds; otherwise no state changes, and without such a message nothing at all |
| Inbound.SessionInbox.RefuseMessage | hermes_peer/sessions.py:817-830 | exactly a held message of the selected session's peer becomes refused, and nothing else changes |
| Inbound.SessionInbox.SetPolicy | hermes_peer/sessions.py:832-842 | exactly the selected session's peer gets the policy; an ambiguous or unknown session changes nothing |
| Inbound.SessionInbox.SelectPeer | hermes_peer/sessions.py:797-803 | the peer of the named session, of the only one, or an error |
| Inbound.SessionInbox.Detach | hermes_peer/sessions.py:379-390 | closing a session removes it and its peer's policy |
| InboundProtocol.OneWinnerOneInjection | hermes_peer/sessions.py:657-738 | in every interleaving at most one call wins the claim, exactly one once any inbound call returned, policy is evaluated and `on_inbound` injects at most once |
| InboundProtocol.DuplicateOnlyReads | hermes_peer/sessions.py:690-697 | a losing call's only step returns the persisted state and changes nothing |
| InboundProtocol.WinnersReceiptIsPersisted | hermes_peer/sessions.py:699-738 | when the winner returns, its receipt is the state in the row |
| InboundProtocol.DropsAndRefusalsAreFinal | hermes_peer/sessions.py:704-723 | a message dropped or refused by policy stays so in every continuation and was never accepted by the host; a refused one has lost its content |
| InboundProtocol.OverlappingReleases | hermes_peer/sessions.py:795-815 | without mutual exclusion of releases a run exists in which the host accepts a message twice |
| InboundProtocol.ReleaseOvertakesInbound | hermes_peer/sessions.py:729-736 | without waiting for the inbound call a run exists in which a rejected message is accepted twice |
| InboundProtocol.AtMostOnceIff | hermes_peer/delivery.py:141-188 | the host accepts a message at most once in every run exactly when a release starts only while no other release and no inbound call of it is in flight |
| InboundProtocol.EarlyDuplicate | hermes_peer/sessions.py:690-697 | a run exists in which a duplicate is told `queued` and the message expires |
| InboundProtocol.ConvergesIff | hermes_peer/sessions.py:670-697 | all calls for one message return one state exactly when a duplicate claims only after the winner returned |
| InboundProtocol.LoneDrop | hermes_peer/sessions.py:704-707 | a lone call whose message is dropped ends in the state of its reason, with no injection |
| InboundProtocol.LoneHold | hermes_peer/sessions.py:723-728 | a lone call whose message is held ends held, with no injection |
| InboundProtocol.LoneRefuse | hermes_peer/sessions.py:709-721 | a lone call whose message is refused ends refused with the content gone |
| InboundProtocol.LoneForward | hermes_peer/sessions.py:729-738 | a lone call whose message is forwarded ends queued if the host accepts and held otherwise |
| InboundProtocol.LoneRelease | hermes_peer/sessions.py:795-815 | an undisturbed release queues a held message exactly if the host accepts it |
| InboundProtocol.LoneRefusal | hermes_peer/sessions.py:817-830 | an undisturbed refusal refuses a held message |
| InboundRefusals.RefusalIsHeldAgain | hermes_peer/sessions.py:729-830 | unless refusals wait for the inbound call a run exists in which a refusal returned true and the message is held again |
| InboundRefusals.RefusalIsOverruled | hermes_peer/sessions.py:795-830 | unless refusals and releases exclude each other a run exists in which a refusal returned true and the message ends queued |
| InboundRefusals.RefusalsAreFinalIff | hermes_peer/sessions.py:795-830 | a refusal that returned true stays in every run exactly when refusals wait for the inbound call and exclude releases |
| InboundRefusals.AcceptedIsRefused | hermes_peer/sessions.py:795-830 | unless they exclude each other a run ends with an accepted message that is refused |
| InboundRefusals.QueuedIsAcceptedIff | hermes_peer/sessions.py:657-830 | with no call under way the row is queued exactly if the host accepted the message, once, in every run exactly when releases exclude each other and refusals and wait for the inbound call |
| ConcurrentCapacity.StaleCountOverfills | agent_peer/policy.py:102-122 | with a shared engine a run exists in which as many messages as the whole capacity stay pending |
| ConcurrentCapacity.KeptBelowCapacity | hermes_peer/sessions.py:699-701 | if every call is judged by a count that covers the rows claimed before it, fewer messages than the capacity are kept |
| ConcurrentCapacity.NeverFullIff | hermes_peer/sessions.py:645-701 | in every interleaving of inbound calls for one recipient fewer messages than the capacity are kept pending, exactly when the engine is not shared, or registration and evaluation are not interleaved, or the capacity admits nobody |
| Broadcast.Settling | agent_peer/broadcast.py:183-192 | the settling attempt is the first one not answered `unreachable` or `timeout`, or the last one allowed |
| Broadcast.SendWithRetries | agent_peer/broadcast.py:181-192 | the retry loop ends with the state and detail of the settling attempt after exactly that many sends |
| Broadcast.QueuedMeansSent | agent_peer/broadcast.py:181-188 | in a completed broadcast every member was sent to as often as its own outcomes demand, and one reported `queued` was sent to exactly when the retry limit is not negative |
| Broadcast.FinalAnswerDecides | agent_peer/broadcast.py:181-192 | in a completed broadcast the first attempt that neither raised nor met `unreachable` or `timeout` decides state and detail, after exactly that many sends |
| Broadcast.LastAttemptDecides | agent_peer/broadcast.py:181-192 | without such an attempt the last one allowed decides, a raised send counting as `unreachable` with the attempt's number and text |
| Broadcast.NobodyToSendTo | agent_peer/broadcast.py:148-188 | the sender is skipped, an unresolved member unreachable, and with a negative retry limit the others stay queued, all without a send |
| Broadcast.StatusOnlyAdvances | agent_peer/broadcast.py:114-222 | under every interleaving the parent moves only from created to in flight to completed |
| Broadcast.FanOutSafety | agent_peer/broadcast.py:133-205 | in every run one step at most takes a caller through the gate, and exactly one has once the parent left created; all child rows exist before the first send, and a member is sent to at most `max_retries + 1` times, again only after `unreachable` or `timeout` |
| Broadcast.GateIsPassedOnce | agent_peer/broadcast.py:133-146 | in any run, from the start or any state reached, the gate is passed once exactly if the parent leaves created, and who passed never changes |
| Broadcast.StrandedRuns | agent_peer/broadcast.py:136-169 | after a `resolve` that raised past the gate every run keeps the parent in flight, without children and with no send at all |
| Broadcast.CompletesIff | agent_peer/broadcast.py:133-222 | a broadcast in flight can still complete exactly if the call past the gate has not raised |
| Broadcast.StrandedIsReachableIff | agent_peer/broadcast.py:136-169 | some run strands the broadcast exactly if some member is not the sender |
| Broadcast.CompletedIsReachable | agent_peer/broadcast.py:114-222 | a broadcast to any group with members has a run that completes |
| Broadcast.CompletedAgreement | agent_peer/broadcast.py:147-264 | once completed, the winner's entries depend on each member's own outcomes only, and every read of the child rows is the same sequence |
| Broadcast.ListingIsUnique | agent_peer/broadcast.py:239-244 | two reads of the same child rows in agent order are equal |
| Broadcast.ReaderFailuresAreFewer | agent_peer/broadcast.py:224-262 | the readers' failures are at most the winner's |
| Broadcast.FailuresAre | agent_peer/broadcast.py:224-262 | which entries the two lists of failures hold |
| Broadcast.FailuresAgreeIff | agent_peer/broadcast.py:224-262 | in a completed broadcast the failures of the call that fanned out and of any reader are equal exactly when every member's own outcome is delivered or unreachable |
| Broadcast.SenderInGroupMakesFailuresDiffer | agent_peer/broadcast.py:224-262 | with the sender among the members the two lists always differ |
| Registries.ForeignWritersChangeNothing | agent_peer/registry.py:97-168 | no run of fenced writers carrying other authorities changes a record |
| Registries.WritersKeepIdentity | agent_peer/registry.py:121-168 | through any run of fenced writers no record appears, and one that can still be read has its identity, session and bound authority; only name, status, activity and last sighting may differ, and a file changes only by writers that carried its authority |
| Registries.MatchesMeans | agent_peer/registry.py:303-321 | the fence compares instance, path, owner and inode of a readable file |
| Registries.FileSizeIsExact | agent_peer/registry.py:61-85 | the number of bytes by which the ceiling is judged is the length of the file's JSON text |
| Registries.ReadableMeans | agent_peer/registry.py:234-236 | a record can be read exactly if the text of its file has at most 65,536 bytes |
| Registries.StatusTexts | agent_peer/models.py:68-74 | the text of each presence |
| JsonTexts.DecimalReadsBack | agent_peer/registry.py:334 | the digits of a number in a file read back to it, with no leading zero |
| JsonTexts.HexReadsBack | agent_peer/registry.py:334 | an escaped code unit reads back from its four digits |
| Registries.UnreadableIsFinal | agent_peer/registry.py:97-168 | a file over the ceiling is changed and removed by no run of fenced writers |
| Registries.SuccessorsDecide | agent_peer/registry.py:121-168 | whoever else writes, a record file is decided by the updates that carried its authority, one after another, up to the first one over the ceiling |
| Registries.StaysReadableIff | agent_peer/registry.py:221-248 | so it can still be read exactly if all of them were within the ceiling, and then it is the last one |
| Registries.LongNoteIsUnreadable | agent_peer/registry.py:221-248 | a record with a note of 64 KiB cannot be read |
| Registries.LargeCapabilitiesAreReadable | agent_peer/registry.py:221-248 | up to 40,000 bytes of capabilities fit beside other values of up to 1,000 bytes |
| Registries.Registry.Register | agent_peer/registry.py:58-85 | one record file is written, with its stamps filled in, and can be read exactly if it is within 65,536 bytes; no other file changes |
| Registries.Registry.UnregisterIfCurrent | agent_peer/registry.py:97-117 | removed exactly while the authority matches |
| Registries.Registry.UpdateIfCurrent | agent_peer/registry.py:121-168 | updated exactly while the authority matches, then name, status, note and last sighting only as asked and in that one file, which may be over the ceiling afterwards |
| Registries.Registry.UpdatePresence | agent_peer/registry.py:170-190 | status and, if given, activity change behind the fence of the expected record, in a file that may be over the ceiling afterwards |
| Registries.Registry.Heartbeat | agent_peer/registry.py:192-205 | only the last sighting changes, in a file that may be over the ceiling afterwards |
| Supervisors.InverseAfterInsert | agent_peer/runtime.py:199-200 | filing a listener keeps listeners and owners inverse exactly for a new id |
| Supervisors.RegisteredCoherentIff | agent_peer/runtime.py:196-206 | a successful registration keeps all maps coherent exactly for an id not yet registered |
| Supervisors.RolledBackRestoresIff | agent_peer/runtime.py:215-250 | a failed registration restores every map, and keeps them coherent, exactly for an id not yet registered |
| Supervisors.LateRollBack | agent_peer/runtime.py:215-238 | rolling back after the entries were filed removes the id and the new listener from everything |
| Supervisors.UnregisteredCoherent | agent_peer/runtime.py:290-362 | a teardown, of a known or unknown id, keeps all maps coherent |
| Supervisors.UnregisterUndoesRegister | agent_peer/runtime.py:148-362 | registering a fresh id and unregistering it restores every map |
| Supervisors.UnregisterUnlinksItsSocket | agent_peer/runtime.py:177-336 | it leaves the path empty and every other socket file as it was, exactly if the socket file could be read |
| Supervisors.UnregisterRetractsItsRecord | agent_peer/runtime.py:206-356 | and restores the record files exactly if the published record can be read as closing |
| Supervisors.ClosingThenRemoveIff | agent_peer/runtime.py:294-356 | the fenced removal goes through after the closing mark as it would without exactly if the marked record can still be read |
| Supervisors.PeerRuntimeManager.ReclaimStaleSocket | agent_peer/runtime.py:720-728 | a socket file is removed exactly when nobody listens on it |
| Supervisors.PeerRuntimeManager.BindListener | agent_peer/backends/posix.py:122-151 | binding needs a free path; a failed bind leaves the path empty |
| Supervisors.PeerRuntimeManager.RegisterPeer | agent_peer/runtime.py:148-250 | it fails exactly at one of the failure points or at a path in use; a failure leaves the path empty and, for a fresh id, every map and record file as before; a success files and publishes the record with its path and, if they could be read, the uid and inode of its socket file, which it then owns; the invariant is kept exactly for a fresh id |
| Supervisors.PeerRuntimeManager.UpdateRecord | agent_peer/runtime.py:252-271 | replaced exactly for a registered peer with the same bound authority |
| Supervisors.PeerRuntimeManager.Accept | agent_peer/runtime.py:528-546 | a connection is kept exactly if it is authenticated and its listener owned, and then belongs to that listener's peer |
| Supervisors.PeerRuntimeManager.DropConnectionsOf | agent_peer/runtime.py:324-328 | exactly the connections of the peer go |
| Supervisors.PeerRuntimeManager.UnregisterPeer | agent_peer/runtime.py:273-362 | the invariant is kept; exactly the peer's entries and connections go; exactly the socket file with the recorded path, uid and inode is unlinked; a record with its authority is removed if it can still be read as closing and stays behind unreadable otherwise |
| Supervisors.PeerRuntimeManager.Shutdown | agent_peer/runtime.py:412-438 | every peer, connection and selection is gone, the thread stopped; exactly the record files with a registered peer's authority are gone or, if over the ceiling as closing, unreadable; only socket files a peer owned are unlinked; a second call does nothing |
| Sessions.AliasesAreStripped | agent_peer/identity.py:69-79 | a valid alias is its own stripped form |
| Sessions.AliasMeans | agent_peer/identity.py:76-87 | an alias has one to 64 characters, no space or separator, and no leading dash |
| Sessions.MirroredAfterUpdate | hermes_peer/sessions.py:315-324 | writing one accepted record to all three places leaves this session's copies in agreement exactly if it is within the ceiling, and the others as they were |
| Sessions.MirroredAfterOpen | hermes_peer/sessions.py:280-289 | a freshly registered record agrees in all three places exactly if it is within the ceiling |
| Sessions.MirroredAfterClose | hermes_peer/sessions.py:379-390 | closing one session leaves the others as they were, whatever becomes of its file |
| Sessions.MirroredAfterHeartbeat | agent_peer/presence.py:32-39 | a heartbeat keeps them in agreement exactly if the file with the new stamp is within the ceiling |
| Sessions.MirroredAfterRewriteIff | hermes_peer/sessions.py:457-467 | rewriting only the registry record keeps the copies in agreement exactly when the new one agrees and is within the ceiling |
| Sessions.PeersAreDistinct | hermes_peer/sessions.py:285-288 | two open sessions never share a peer |
| Sessions.PeerSessions.SetPresence | hermes_peer/sessions.py:315-330 | if the registry's copy can be read, status and note change in all three copies of exactly this session, which agree afterwards if the new file is within the ceiling; otherwise nothing changes |
| Sessions.PeerSessions.OpenSession | hermes_peer/sessions.py:243-293 | an open session is left alone; a registration fails exactly at one of the failure points and then changes nothing; a success adds the bound record, field by field, under its alias or derived name, in agreement exactly if it is within the ceiling |
| Sessions.PeerSessions.Start | hermes_peer/sessions.py:295-313 | the session is open and, exactly if its registry copy could be read, working on the given note; its copies agree exactly if the new file is within the ceiling too; no other session changes |
| Sessions.PeerSessions.End | hermes_peer/sessions.py:332-336 | if the registry's copy can be read the session is idle and its note cleared; otherwise nothing changes |
| Sessions.PeerSessions.Finalize | hermes_peer/sessions.py:379-390 | the session, its peer and its policy are gone; its record file is gone exactly if it can be read, also as closing, and stays behind unreadable otherwise; an unknown session changes nothing |
| Sessions.PeerSessions.Rotate | hermes_peer/sessions.py:360-377 | the old session is closed and, if registering works, the new one open and, if its record can be read, working, under the alias the old peer had been given, which its own peer keeps |
| Sessions.PeerSessions.Reset | hermes_peer/sessions.py:338-358 | the named or only session is rotated into the new one; without a name it fails unless one session is open |
| Sessions.PeerSessions.Heartbeat | agent_peer/presence.py:32-39 | only the last sighting in the peer's record file changes; the copies stay in agreement exactly if that file is within the ceiling |
| Sessions.PeerSessions.SetAlias | hermes_peer/sessions.py:447-469 | refused exactly for an unknown session, an unreadable registry copy or an invalid alias; a valid alias renames all three copies; afterwards they agree exactly if the renamed file is within the ceiling and the alias valid or the name unchanged |
| Sessions.LongSessionIdIsNeverListed | hermes_peer/sessions.py:131-133 | the record of a session with an id of 32 KiB is over the ceiling, because its target repeats the id |
| Sessions.LongNoteStrandsTheRecord | hermes_peer/sessions.py:295-390 | a turn with a note of 64 KiB works on it with an unreadable file; its end changes nothing, and the file outlives the session |
| Discovery.ProbeSucceedsIff | agent_peer/discovery.py:148-222 | against a supervisor the challenge succeeds exactly when it holds a record of the peer equal on peer, instance, session, agent, protocols, protocol and status, whose identity is within the content and frame ceilings |
| Discovery.ProbeIsSound | agent_peer/discovery.py:192-222 | whoever answers, success means the reply carried the nonce and the recorded identity |
| Discovery.ReplayFails | agent_peer/discovery.py:194-204 | a reply to another nonce never passes |
| Discovery.OpenSessionsAnswer | agent_peer/runtime.py:593-637 | an open session is found alive through its record file exactly if the record last written can be read and its identity is within the ceilings of a reply |
| Discovery.LargeCapabilitiesAreSilent | agent_peer/runtime.py:616-637 | an open session with 32 KiB of capabilities and a readable file never answers |
| Discovery.ResolveAgent | agent_peer/discovery.py:398-453 | a result is a listed session of the agent that answers, is not the requester, and has the pinned id |
| Discovery.ResolutionIsOrderFree | agent_peer/discovery.py:422-453 | any permutation of the listing gives the same outcome |
| Discovery.ResolutionSucceedsIff | agent_peer/discovery.py:417-453 | success exactly when the pin names one live session or, unpinned, one live primary or one live session exists; no live session is its own error |
| Discovery.ResolutionIsTheOnlyCandidate | agent_peer/discovery.py:417-453 | the one candidate with the pinned id, or without a pin the one primary candidate or the only one, is the result; no live session is reported exactly without candidates |
| Discovery.DiscoveryService.CachedProbe | agent_peer/discovery.py:257-282 | an entry of less than two seconds decides and stays; otherwise the answer needs an open listener at the address and is filed under the time, and of the other entries only expired ones go, when there are more than 256 |
| Discovery.DiscoveryService.FencedRemove | agent_peer/discovery.py:485-553 | a record goes only while re-read unchanged in instance and path, unanswered and without listener; an unexpired cached success keeps it, and an unchanged, deserted and unshielded one does go |
| Discovery.DoomedMayGo | agent_peer/discovery.py:82-145 | which records a repair may delete: readable, named after their peer, and without address or at their own address with no listener and no foreign socket file |
| Discovery.DiscoveryService.RepairStale | agent_peer/discovery.py:457-483 | only dead accepted records without a listener are deleted, each returned once, whatever their heartbeat; a cached success unexpired at the end keeps its record, and without such a shield exactly the dead ones go, an equivalence when no time passes |
| Discovery.CachedSuccessKeepsADeadRecord | agent_peer/discovery.py:257-282 | a record that answered, whose listener then closed, is dead and survives a repair that follows at once |
| Workflows.ParseInvertsText | agent_peer/workflows.py:16-25 | each stored text names one state |
| Workflows.TableAllows | agent_peer/workflows.py:29-46 | the table in one rule: one step along the main path, failure once accepted, refusal only while queued, cancellation and expiry until terminal |
| Workflows.TransitionsClimb | agent_peer/workflows.py:29-46 | every legal transition raises the rank and starts in no terminal state |
| Workflows.TerminalIffStuck | agent_peer/workflows.py:48-56 | terminal are exactly the states without a way out; all others may expire or be cancelled |
| Workflows.PathsAreShort | agent_peer/workflows.py:29-84 | a legal history has at most five states, none twice, only the last terminal |
| Requests.HistoryIsShort | agent_peer/requests.py:139-146 | a request's events start at created, end at its state, rise in rank and are at most five |
| Requests.LoggedAfterMove | agent_peer/requests.py:168-171 | a legal move with its event keeps every request's events a legal path to its state |
| Requests.KeyedAfterCreate | agent_peer/requests.py:69-95 | inserting under a key nobody owns keeps one request per sender and key |
| Requests.TextBeforeIff | agent_peer/requests.py:181-186 | the order of texts: a proper beginning, or smaller at the first difference |
| Requests.RequestStore.Create | agent_peer/requests.py:46-110 | a repeated key returns the original request and changes nothing; otherwise one row and one event are added, also when the request then fails validation |
| Requests.RequestStore.Transition | agent_peer/requests.py:150-173 | exactly a legal move changes the row and logs one event; unknown ids, terminal requests and illegal or unknown targets change nothing |
| Requests.RequestStore.ActionsMove | hermes_peer/sessions.py:1010-1020 | which action moves which state to which |
| Requests.RequestStore.ExpireOverdue | agent_peer/requests.py:175-194 | the loop expires exactly the created, queued, accepted and in-progress requests whose deadline precedes the time, one event each, and returns their number |
| Requests.ActiveCountAfterMove | agent_peer/requests.py:196-201 | a legal move lowers the active count by one exactly if it ends in a terminal state |
| Requests.ActiveCountAfterCreate | agent_peer/requests.py:196-201 | a new request is one more active one |
| Requests.ActiveCountAfterExpiry | agent_peer/requests.py:175-201 | an expiry lowers the active count by the number of overdue requests |
| Requests.RequestStore.CreateRequest | hermes_peer/sessions.py:881-947 | a repeated key returns the one request of that key and queues it if it was still created; a new one is stored, reported as created and left queued with two events, or left created if sender or recipient is empty; no other request changes |
| Requests.RequestStore.Respond | hermes_peer/sessions.py:990-1021 | only the recipient, by a known action, moves the request: accept, progress, complete, fail and refuse each from their own states with one event; anything else changes nothing, and each refusal has its own error |
| Markers.EscapeContent | hermes_peer/delivery.py:55-70 | the loop over the tags computes the escaping |
| Markers.StripName | hermes_peer/delivery.py:42-52 | the loop over the tags computes the sanitised name |
| Markers.SanitisedIsOneLine | hermes_peer/delivery.py:49 | a sanitised name holds no line break; before the tags go, exactly the line breaks went |
| Markers.MessageHeaderReadsBack | hermes_peer/delivery.py:73-84 | whatever the sender's name and the content hold, the lines of a message marker are its tag, name, peer id, message id, an empty line, the content's and the closing tag |
| Markers.RequestHeaderReadsBack | hermes_peer/delivery.py:87-113 | the same of a request marker, to whose header only the summary can add lines |
| Markers.EscapedTagsAreGone | hermes_peer/delivery.py:55-70 | escaping leaves no escaped tag and adds no tag |
| Markers.ContentIsRecoverableIff | hermes_peer/delivery.py:55-70 | removing zero-width spaces recovers exactly the contents that had none |
| Markers.EnclosedIff | hermes_peer/delivery.py:77-84 | joined lines are well bounded exactly when none of them contains either tag |
| Markers.MessageBoundaryIff | hermes_peer/delivery.py:73-84 | for all content the message marker opens only at its start and closes only at its end exactly when no header field, as written, contains a message tag |
| Markers.RequestBoundaryIff | hermes_peer/delivery.py:87-113 | the same for the request marker, with arbitrary content and summary |
| Markers.PlainHeadersSuffice | hermes_peer/delivery.py:73-84 | header values without `<` always give a well-bounded message |
| Markers.NamesWithoutTagsAreSafe | hermes_peer/delivery.py:42-52 | a name that contains no tag once it is on one line, though it may contain `<`, is left as it is and always gives a well-bounded message |
| Markers.EmbeddedTagSurvives | hermes_peer/delivery.py:18-23 | a tag that is not escaped survives inside the content, wherever it stands |
| Markers.EscapingKeepsCount | hermes_peer/delivery.py:34-39 | escaping one marker's tags keeps the number of the other marker's tags |
| Markers.NestedTagIsRebuilt | hermes_peer/delivery.py:49-52 | a tag nested in itself comes out of the sanitiser whole |
| Markers.SanitisedNameMayBreakTheBoundary | hermes_peer/delivery.py:42-52 | with such a sender name the message marker is not well bounded |
| Markers.DeliveredRequestIsWellBounded | hermes_peer/delivery.py:73-113 | a request marker inside a message marker has each of the four tags exactly once, whatever content and summary hold |

## Left out

- EnvelopeCodec.EnvelopeRoundTrip: years 1000 to 9999 only, because below that the padding of the formatted year depends on the platform; the same holds for `EnvelopeCodec.TimestampRoundTrip`, `EnvelopeCodec.WireFormIsInjective` and `EnvelopeCodec.AcceptedEnvelopesAreStable`.
- EnvelopeCodec.DictToEnvelope: what the library reads from timestamp texts of other shapes than the encoder's is a parameter. JSON text is a value tree, and characters are Unicode scalar values, so lone surrogates are not modelled.
- Store.MessageStore.Retain: needs a batch size of at least one; with a smaller one the first loop does not end.
- Inbound.SessionInbox.OnInbound: one call at a time and no retention between calls; interleavings are in InboundProtocol and ConcurrentCapacity.
- Inbound.SessionInbox.ReleaseMessage: a stored row always rebuilds into an envelope; the failing rebuild, which returns false, is not modelled.
- Connections.Connection.Service: after an exception has left, the connection is not serviced again, as the loop is gone; a later registration, which restarts the loop, is not followed on that connection. Expiry is judged at one instant per connection, the handler's outcome is a function of the request, and message ids, clocks and the text of replies are outside.
- Broadcast.FanOutSafety: the pool's bound on concurrent workers is dropped, which only allows more interleavings; the parent's stored sender and group and the group's members are fixed.
- Registries.Registry.UpdateIfCurrent: files that can be read are named after the peer they describe and carry both stamps, as the registry writes them; file permissions and symbolic links are not modelled.
- Supervisors.PeerRuntimeManager.RegisterPeer: unlinking always succeeds; a supervisor thread that dies on its own and a join that times out are not modelled.
- Sessions.PeerSessions.SetAlias: the session is named; falling back to the only open session is the same selection as `Inbound.SessionInbox.SelectPeer`.
- Sessions.PeerSessions.OpenSession: no other process writes this process's record files between operations; alias persistence never fails.
- Discovery.ProbeSucceedsIff: the TypeError of a truthy protocols value that is neither text nor a list, and a reply that cannot be decoded, count as a failed challenge here; the supervisor's loop is taken to be running.
- Discovery.OpenSessionsAnswer: the supervisor's loop is taken to be running.
- Discovery.DiscoveryService.FencedRemove: the registry and socket inode comparisons compare a fixed environment with itself and are dropped; socket type, mode and containment are not modelled.
- Requests.RequestStore.Create: payload, correlation and parent ids are opaque and dropped; keys are exclusive within one store.
- Requests.RequestStore.CreateRequest: the delivery of the request marker, which a repeated key repeats, is outside.
- RateLimiting.RateLimiter.Allow: the clock is monotonic and times are reals.
- Real sockets, selectors, threads, files and SQLite: maps, sets and atomic steps.
- The Windows backend and its named pipes.
- UUID and SHA-256 generation: ids are opaque or fresh.
- Groups, the event broker, presence throttling, capability negotiation, dashboards, desktop code, commands, configuration, installer: they store and forward single values and keep no invariant of their own that the core relies on.
- Latency samples and other metrics that no property mentions; the presence summary of the dashboard.
- Listing order, name and session targets in `resolve_peer`.
