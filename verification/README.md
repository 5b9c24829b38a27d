# AetherNode relay: a verified model of replication, deletion and admission

AetherNode is a mesh of message relays. A client publishes a signed, encrypted message to
one relay; the relays push it to each other and pull from each other's logs; the recipient
fetches it and may delete it everywhere. This project models what a relay stores and how
the mesh replicates it, and proves what each step, each run and each schedule keeps.

`dafny verify dfyconfig.toml` checks everything.

## How the model is built

Three views of one relay, each proved against the next:

- **Values** (`Store`, `RelaySpec`, `RateLimit`, `Fetch`): the two tables, the rate limiter
  and each locked section as functions. `RelaySpec` adds a record of everything a relay ever
  stored, confirmed deleted, settled or turned away; `Runs` proves that the record is exactly
  what the tables and the steps of the run show.
- **State changed in place** (`RelayDatabase`, `RelayHandlers`, `AntiEntropy`,
  `RateLimiterClass`): the classes of gossip.py, relay.py and ratelimit.py, with the same
  gates in the same order, proved against the values: tables, cursors, limiter and pushes.
- **The mesh** (`Mesh` and what imports it): any number of relays, pushes in flight, and
  pulls that interleave with everything else one row at a time. A run is any sequence of
  steps: publish, delete, a push delivered or lost, a page opened, one row of it, its cursor
  stored, a page abandoned, a sweep, a restart, time passing. The limiter's answers are
  arbitrary in every step, so the results hold for every limiter state. `Refinement` proves
  that a whole pull by the class, of messages or of tombstones, and each handler, is a run of
  the mesh.

`Interleaving` is a second, finer model of one relay, in which any number of handlers
interleave between any two of their locked sections; `Schedules` is about whole runs of it.

An expiry is a text. Validation parses it and the database compares it as text, so a payload
carries both the instant its text names and the instant at which its text stops sorting
after the present. `Timestamps` proves that every text has exactly such an instant and
computes it for the usual spellings; the rest of the model lets the two differ at will.

| file | what it holds |
|---|---|
| Protocol, Tables, Store | identities, ideal signatures, day buckets; tables with AUTOINCREMENT ids, and pages of them; the locked sections |
| Quota, Answers | the quota in terms of rows; what each handler answers and leaves, in terms of rows |
| Wire, ResponseText | sizes of the gossip responses; that they are the lengths of the JSON text, and which pages always fit |
| RelaySpec, Mesh, Runs | a relay's invariant, the mesh and its steps, safety over whole runs |
| Provenance, Flood | who deleted what; how far and how often a message is pushed |
| Convergence, Liveness | the mesh at rest holds one state; pulling alone brings it to rest |
| Interleaving, Schedules, Order | handlers interleaved section by section; whole schedules of them; a delete before or after its message, and what a claim waits through |
| RelayDatabase, RelayHandlers, AntiEntropy, Refinement | the classes, and their handlers and pull loops as runs of the mesh |
| RateLimit, RateAvailability, RateLimiterClass | token buckets and the LRU pool as values: what they never exceed, and what they always grant; the same as objects |
| CatchUp, Fetch, DayWindow, Timestamps, Padding | paging, fetching, the day search, timestamps as text, padding |

## Idealisations

- A signature fixes the payload it signs, and a forged one never verifies;
  `blind_recipient_id` is injective in the key and the day.
- A signature has one text. relay.py:242 decodes base64 leniently, so the code accepts
  several texts of one signature, and treats them as different messages: it compares texts
  when it looks for duplicates and deletions.
- A relay keeps its database over a restart. relay.py:175 also allows one in memory, where a
  restart loses the rows and reuses their ids under cursors that peers still hold.
- A relay's clock never goes back. Clocks of different relays are unrelated.
- All relays run the same settings, and the minimum TTL is positive.
- Relays run this code; clients and whatever they send are arbitrary. A pull or a push
  succeeds only between relays that pin each other's certificate.
- The results about the mesh take each request, and each row of a pulled page, as one
  uninterrupted step. `Interleaving` and `Schedules` show which of them survive finer
  interleaving.
- A handler reads the clock once. Limiter arithmetic is over the reals.
- The client and the relay compute candidate addresses by the same formula, so one function
  models both.

## Where the code does less than its documentation says

Each case is proved exactly: the condition under which the property holds, and an input
family for which it does not.

- *A tombstone always wins.* gossip.py:945-961 reads a claim, releases the lock, then
  writes, and the insert is a third section. A tombstone recorded in those gaps is
  overtaken, or recorded and reaped again unseen. `DisjointIff` and `NoResurrectionIff` say
  of any schedule exactly when the tables stay disjoint and when a deleted message stays
  deleted, `OrderlyNeverResurrects` what a schedule must keep to, and `GapResurrects` and
  `ReapResurrects` give schedules that break it. For uninterrupted handlers the property
  holds on every run.
- *A relay that was offline catches up* (README.md:217). A page of up to 500 rows is refused
  whole when it exceeds about 133 KB, before the cursor is stored, so a relay 25 messages of
  the smallest size behind, or 143 tombstones of 2048-bit keys, never moves again:
  `BacklogStalls`, `DeletionBacklogStalls`. Up to 19 messages of that size, or 138 such
  tombstones, are always read: `SmallBacklogRead`, `SmallDeletionBacklogRead`. `BacklogIff`
  says exactly which backlogs are read, and `EventuallyConsistent` and `RestIsFinal` what this
  leaves of convergence.
- *A delete that arrives before its message takes effect when the message arrives*
  (README.md:262). Only the first claim for a signature is kept, whoever made it:
  `FirstClaimDecides`.
- *UTC expiry texts sort like instants* (relay.py:292-301). True of `isoformat()` texts;
  validation accepts others. With a separator below `T`, such as a space, a text lapses at
  midnight before it expires; with one above, at midnight after; with a `Z`, up to a second
  late; without dashes, at the end of its year: `SeparatorMisjudged`, `SeparatedLapses`,
  `ZuluExpiryMisjudged`, `ZuluLapses`, `BasicLapses`.
- *A relay stores and pushes a message once* (gossip.py:784-789). A message whose text lapses
  at least the shortest accepted time to live before it expires is swept while it still
  validates, and can be stored and pushed again without bound: `InsertedOnceIff`,
  `FloodBoundedIff`. For `isoformat()` texts the property holds on every run.

## Model

| member | source | states |
|---|---|---|
| Tables.PageSkipsNothing | gossip.py:580-605 | a page of the rows above a cursor, cut at the limit, contains every row up to its last id, so storing that id as the cursor skips nothing |
| Tables.PageExact | gossip.py:567-605 | a list is the page for a cursor and a limit if and only if it has rows above the cursor in id order, at most the limit, all of them if fewer, and otherwise none skipped up to its last |
| Tables.AboveAfterPage | gossip.py:567-578 | what remains above the last id of a page is the backlog without the page |
| Store.ConfirmationContents | gossip.py:965-988 | confirming removes exactly the target from messages and from pending claims, adds exactly it to the tombstones |
| Store.FindsDeletion | gossip.py:926-935 | with unique targets, one lookup tells absent, pending and confirmed apart |
| Quota.QueriesExact | gossip.py:844-872 | the two queries give the number of the recipient's rows and the sum of their sizes |
| Quota.HasRoomIff | gossip.py:866-872 | there is room if and only if the recipient has fewer rows than the message cap and they are together smaller than the byte cap |
| Quota.InsertionIff | gossip.py:800-827 | the insert answers quota exceeded if and only if the recipient's rows are at a cap, and otherwise new if and only if the signature is not held |
| Answers.OutcomeIff | relay.py:396-488 | an offered message gets each of the six answers if and only if a condition on the rows holds, with the quota as rows, validity as the signed message with an expiry between the shortest and the longest time to live from now, and deletion as a tombstone or a claim whose requester owns the address now |
| Answers.AcceptedRows | gossip.py:800-827 | an accepted message becomes the next row, and takes away exactly what was recorded of its deletion |
| Answers.DiscardIff | gossip.py:926-962 | the last gate discards if and only if the signature has a tombstone, or a claim whose requester owns the address now |
| Answers.DiscardedRows | gossip.py:943-988 | a message discarded over a claim changes no message row, and replaces the claim by a tombstone dated now for the message's address, in the claimant's name |
| Answers.ConfirmsIff | gossip.py:1020-1040 | a delete request is confirmed if and only if the message is held at an address the requester owns, today or on a lookback day |
| Answers.ConfirmingRows | gossip.py:965-988 | then exactly the message's row goes, and a tombstone under a fresh id replaces what was recorded of its deletion |
| Answers.UnconfirmedRows | gossip.py:1036-1060 | otherwise no message is touched, and a claim is added if and only if the message is neither held nor asked for already |
| Answers.SweepExact | relay.py:713-720 | of the messages exactly those whose text has not lapsed are left, and of the deletions, claim or tombstone, exactly those asked for less than the retention time ago |
| RelaySpec.ResolveKeeps | gossip.py:897-962 | the last gate keeps the relay's invariant; a discarded message is confirmed deleted, a cleared one has no claim or tombstone left |
| RelaySpec.NeverSeen | relay.py:303-307 | a message that still validates and is neither stored nor confirmed deleted was never confirmed deleted before, sweeps and reaping included, and never stored before unless its text lapses too early |
| RelaySpec.OfferKeeps | relay.py:396-488 | the whole publish sequence keeps the invariant, and each outcome changes the tables exactly as described |
| RelaySpec.DeleteKeeps | gossip.py:991-1060 | a delete request keeps the invariant; did_confirm exactly moves the target from messages to tombstones, otherwise neither set changes |
| RelaySpec.ReconcileKeeps | gossip.py:1442-1453 | a pulled tombstone keeps the invariant and ends confirmed |
| RelaySpec.SweepKeeps | relay.py:713-720 | a sweep removes exactly the messages whose expiry text has lapsed, and no tombstone whose message could still be accepted |
| RelaySpec.PullOneMessageKeeps | gossip.py:1300-1374 | one pulled row either meets a rate limit and changes nothing, or is settled and moves the place to its id |
| RelaySpec.PullOneDeletionKeeps | gossip.py:1428-1453 | one pulled tombstone row, likewise |
| Mesh.StepKeeps | gossip.py:1283-1454 | every step of the mesh, of all fourteen kinds, keeps every relay's invariant and, for every pair, the meaning of both cursors and of a page half read |
| Mesh.RunKeeps | gossip.py:1270-1281 | so every run keeps them |
| Runs.AlwaysDisjoint | gossip.py:943-988 | on every run no signature is a message and a deletion request at one relay, nor pending and confirmed, and signatures and targets stay unique |
| Runs.NoResurrection | gossip.py:897-988 | once a relay has confirmed a deletion it never stores the message again, also after the tombstone is reaped |
| Runs.TombstoneOutlivesMessage | relay.py:713-720 | a tombstone stays confirmed, and is never replaced by a claim, until its message has expired by that relay's clock |
| Runs.InsertedOnce | gossip.py:800-827 | a relay inserts a signature at most once over its whole life, unless its text lapses at least the shortest time to live before it expires |
| Runs.InsertedOnceIff | gossip.py:784-789 | of a message a relay accepts: it is inserted at most once on every run if and only if its text does not lapse that early; otherwise publish, sweep, publish inserts it twice |
| Runs.StoresOnlyNew | gossip.py:768-841 | a step stores a signature only through the gates, and only one this relay never confirmed deleted and, unless its text lapses too early, never stored |
| Runs.EverStored | gossip.py:818-825 | the record of insertions is exactly the signatures the tables held at some time |
| Runs.DidConfirmOnce | gossip.py:1030-1040 | a relay answers did_confirm for a signature at most once, so it fans a deletion out at most once |
| Runs.DeletionCursorComplete | gossip.py:1427-1454 | every tombstone in a peer's log at or below the cursor was confirmed here, and is still unless its message has expired |
| Runs.MessageCursorSafe | gossip.py:1297-1375 | every message in a peer's log at or below the cursor, that very payload, went through the gates here without meeting a rate limit: it was stored, confirmed deleted, or itself turned away as invalid or over quota |
| Runs.RateLimitLosesNothing | gossip.py:1313-1355 | a rate limit leaves the tables, the record and the place in the log as they were, for a message not held here |
| Runs.ReplayedMessage | gossip.py:1304-1307 | offering a settled message again, at any time and under any limit, changes nothing |
| Runs.ReplayedTombstone | gossip.py:1442-1453 | applying a tombstone row again changes nothing |
| Provenance.OnlyOwnersDelete | gossip.py:1020-1060 | a message once stored is still stored unless its text has lapsed there or the owner of its own address signed a delete request |
| Provenance.OwnerSigned | gossip.py:1030-1040 | a tombstone anywhere in a run was signed for by the owner of the message's address |
| Provenance.TombstoneOrigin | gossip.py:1380-1454 | every tombstone anywhere goes back, over any number of syncs, to a relay that checked the message's own address against the requester's candidates |
| Provenance.RunSigned | relay.py:315-339 | every claim and tombstone in the mesh names a requester who signed a request for that target |
| Provenance.StrangerChangesNothing | gossip.py:1036-1060 | a non-owner's request for a held message leaves the whole relay as it was and gets the answer for an unknown message |
| Flood.FloodTerminates | gossip.py:1201-1211 | over any run the pushes of one message, delivered, lost or in flight, number at most the edges of the trust graph, unless its text lapses too early |
| Flood.FloodBoundedIff | gossip.py:818-838 | of a message a relay with a peer accepts: its pushes are bounded on every run if and only if its text does not lapse too early |
| Flood.StepSpends | gossip.py:818-838 | for such a message no step increases what is left of a flood, and each delivery or loss decreases it |
| Flood.FloodCompletesIff | gossip.py:768-841 | with nothing in flight, the relays that have held a message are exactly those reachable from where it was published, if and only if every relay that lost a push of it has held it all the same |
| Convergence.LinkCarries | gossip.py:1283-1454 | of one live message: a relay that has read a peer's logs to the end has its deletion if the peer has, and the message or its deletion if the peer has the message, unless it turned the message away and never had it otherwise |
| Convergence.Converges | gossip.py:1283-1454 | where the links read to the end join every pair of relays, of any one unexpired message and whatever became of the others: every relay has its tombstone if and only if some relay confirmed its deletion, none stores it then, and every relay stores it, live, published and not deleted, if and only if none that turned it away has never had it otherwise |
| Convergence.ConvergesWhole | gossip.py:1283-1454 | if that is so of all the mesh ever knew, every relay holds the same tables, a two-phase set |
| Liveness.UsefulProgresses | gossip.py:1270-1375 | every pull step that has something to do, a page that is not too large, and no rate limit lowers a lexicographic measure, so no schedule of them goes on for ever |
| Liveness.RestIff | gossip.py:1136-1153 | no such step is left if and only if every thread is idle and each cursor is at the end of its peer's log exactly when the page it would ask for next fits |
| Liveness.RestIsFinal | gossip.py:1147-1152 | at rest no number of pulls, under any limit, changes a table or pushes anything: what an oversized page blocks stays blocked |
| Liveness.EventuallyConsistent | gossip.py:1219-1227 | from every reachable state such steps alone reach a rest, where a relay has read a peer to the end if and only if neither next page is too large; if the links so read join every pair, the mesh is consistent, message by message, as in `Convergence.Converges` |
| Interleaving.QuotaHolds | gossip.py:800-827 | under every interleaving of locked sections, signatures stay unique, a recipient has at most the message cap, and fewer bytes than the byte cap plus its largest message |
| Interleaving.InsertionIsolated | gossip.py:844-872 | one recipient's insert never changes another's headroom |
| Interleaving.InsertDisjointIff | gossip.py:926-962 | an insert keeps the tables disjoint if and only if it has no room or no deletion request for its message is recorded |
| Interleaving.ResolveLosesIff | gossip.py:938-961 | the write after an unmatched claim loses a tombstone if and only if one was confirmed in between |
| Interleaving.OtherSectionsDisjoint | gossip.py:897-1060 | every section but the insert keeps the tables disjoint, whatever came between |
| Interleaving.TombstonesKept | gossip.py:897-1060 | every section but a sweep and a claim overtaken by a confirmation keeps every tombstone |
| Interleaving.UninterruptedOthers | gossip.py:991-1060 | a delete request, a pulled tombstone and a sweep run at once are the uninterrupted handlers |
| Interleaving.GapResurrects | gossip.py:1361-1369 | for every valid message and tombstone of it, the schedule in which the message ends both stored and confirmed deleted |
| Schedules.DisjointIff | gossip.py:926-962 | a schedule keeps the tables disjoint throughout if and only if no insert with room in it overtakes a recorded deletion request |
| Schedules.NoResurrectionIff | gossip.py:897-962 | a schedule never stores again what it has confirmed deleted if and only if no insert in it has room for a message confirmed deleted earlier |
| Schedules.OrderlyNeverResurrects | gossip.py:897-1060 | that holds of every schedule in which no message is confirmed deleted, reaped again or not, between its validation and its insert, no unmatched claim is written after a confirmation, and tombstones are dated no earlier than their message's expiry less the retention time |
| Schedules.ReapResurrects | gossip.py:1361-1369 | the schedule in which a tombstone comes and is reaped between validation and insert, so that the message is stored again with the tables disjoint throughout |
| Interleaving.UninterruptedOffer | gossip.py:617-699 | run alone, the sections of an offer are the uninterrupted handler |
| Order.OrderIndependentIff | gossip.py:897-1060 | for one requester and a new signature, owner or not, delete then message and message then delete end with the same messages, tombstones and claims if and only if there is no room or the message validates at both times or at neither |
| Order.SweepForgetsIff | relay.py:713-720 | a sweep forgets a claim if and only if it comes once the retention time has passed since the request, and its message is then unknown |
| Order.FirstClaimDecides | gossip.py:1045-1058 | of several early requests only the first counts, whatever else the relay meets and with sweeps at any times within the retention time of it: the message is discarded if and only if it is admitted and the first requester owns it |
| RateLimit.GlobalRateBound | ratelimit.py:44-58 | over any calls in any window, tokens taken less refunds are at most the capacity plus the refill, however many identities |
| RateLimit.AllowRateBound | ratelimit.py:125-139 | for allow the successes themselves obey that bound |
| RateLimit.AllowRefundsExactly | ratelimit.py:113-139 | an identity failure inside allow leaves the global bucket exactly as refilling left it |
| RateLimit.PoolAfterCalls | ratelimit.py:84-93 | after any calls the pool holds the most recently used identities in order of last use, never more than the maximum |
| RateLimit.InPoolIff | ratelimit.py:84-93 | an identity is in the pool if and only if fewer than the maximum of distinct others have been used since its own last use |
| RateLimit.IdentityRateBound | ratelimit.py:84-111 | an identity is granted at most one bucket's capacity plus its refill, as long as after each of its uses fewer than the maximum of distinct others use the pool before its next |
| RateAvailability.GrantedIff | ratelimit.py:44-55 | in any sequence of calls, granted or refused, a call is granted if and only if it and the grants before it stay within the capacity and the refill over every stretch of time that ends with it |
| RateAvailability.ConformingIff | ratelimit.py:44-55 | every call of a sequence is granted if and only if the calls stay within that over every stretch |
| RateAvailability.NewBucketIff | ratelimit.py:38-55 | the same of a new bucket, which starts full |
| RateAvailability.BurstGranted | ratelimit.py:38-55 | a new bucket of n grants n calls, however soon one after another |
| RateAvailability.SpacedGranted | ratelimit.py:44-55 | from any state, calls far enough apart for a token to flow in between are all granted |
| RateAvailability.AllowanceReached | ratelimit.py:44-58 | the upper bound on a window is reached: n calls at once and one as each of m tokens flows in are all granted |
| RateAvailability.AllowIff | ratelimit.py:125-139 | a combined check succeeds if and only if refilling brings the global bucket and the identity's own, full if it has none, to a token |
| RateAvailability.NeverStarved | ratelimit.py:84-111 | an identity within its own allowance is never refused for its own bucket, whatever others ask and whether or not its bucket is evicted |
| RateAvailability.NewcomerNeverStarved | ratelimit.py:84-111 | so of an identity the pool does not know, with its allowance spelled out |
| RateLimiterClass.TokenBucket.Refill | ratelimit.py:44-48 | the fields after a refill: what was there and the time passed at the rate, up to the capacity |
| RateLimiterClass.TokenBucket.TryTake | ratelimit.py:50-55 | the fields after taking, and that it succeeds if and only if refilling leaves a token |
| RateLimiterClass.TokenBucket.Refund | ratelimit.py:57-58 | the fields after a refund |
| RateLimiterClass.RateLimiter.GetOrCreateBucket | ratelimit.py:84-93 | the ordered dictionary after a use, and the object returned: moved to the recent end, or created there with the oldest evicted |
| RateLimiterClass.RateLimiter.CheckGlobal | ratelimit.py:95-105 | the whole limiter after the call |
| RateLimiterClass.RateLimiter.CheckIdentity | ratelimit.py:107-111 | the whole limiter after the call, including that no other identity's bucket object changed |
| RateLimiterClass.RateLimiter.RefundGlobal | ratelimit.py:113-123 | the whole limiter after the call |
| RateLimiterClass.RateLimiter.Allow | ratelimit.py:125-139 | the whole limiter after the call |
| RateLimiterClass.PerMinuteAllowance | ratelimit.py:142-146 | a limit of n a minute grants at most n times one more than the number of minutes |
| RelayDatabase.GossipContext.ScheduleFanout | gossip.py:1201-1211 | one push of the notice to every peer, in order, after those already submitted |
| RelayDatabase.Database.constructor | relay.py:173-226 | a new database is empty and valid |
| RelayDatabase.Database.MessageExists | gossip.py:749-765 | found if and only if the signature is stored |
| RelayDatabase.Database.CheckRecipientQuota | gossip.py:844-872 | the two short-circuiting queries say there is room if and only if the recipient's rows are fewer than one cap and together smaller than the other |
| RelayDatabase.Database.InsertMessageAndMaybeGossip | gossip.py:768-841 | the locked section and its three-part answer, full and new each if and only if, in terms of rows; the fan-out, which happens only on a new insert; uniqueness and the quota are kept |
| RelayDatabase.Database.ApplyConfirmedDeletion | gossip.py:965-988 | delete and INSERT OR REPLACE under a fresh id |
| RelayDatabase.Database.ResolveDeletionRequest | gossip.py:897-962 | tables and answer of the last gate, which is to discard if and only if there is a tombstone, or a claim whose requester owns the address |
| RelayDatabase.Database.HandleDeleteRequest | gossip.py:991-1060 | tables of a delete request, with INSERT OR IGNORE for an unknown target; did_confirm if and only if the message is held at an address the requester owns |
| RelayDatabase.Database.ReconcileTombstone | gossip.py:1442-1453 | a tombstone already confirmed is left alone, otherwise it is applied |
| RelayDatabase.Database.RunOnce | relay.py:713-720 | exactly the rows left in both tables: messages by their text, claims and tombstones alike by the date of the request |
| RelayDatabase.Database.MessagesPage | gossip.py:567-578 | at most 500 rows above the cursor in id order, all of them if fewer, none skipped up to the last |
| RelayDatabase.Database.DeletionsPage | gossip.py:580-605 | the same of the confirmed rows, all of them if fewer than 500 |
| RelayDatabase.Database.DoFetch | relay.py:490-542 | rejections in order, otherwise the answer described by `Fetch.FetchExact` |
| RelayHandlers.RelayHandler.DoPublish | relay.py:396-488 | tables, limiter and pushes of a client's publish, and the answer, which is the one of `Answers.OutcomeIff` |
| RelayHandlers.RelayHandler.DoDelete | relay.py:544-586 | the same for a client's delete |
| RelayHandlers.GossipHandler.DoPublish | gossip.py:617-699 | the same for a peer's push, charged by one combined check |
| RelayHandlers.GossipHandler.DoDelete | gossip.py:701-739 | the same for a peer's delete |
| RelayHandlers.SplitIsAllow | ratelimit.py:113-139 | a request that passes every other check is charged and answered like one call of allow |
| RelayHandlers.OfferCost | relay.py:396-488 | a duplicate costs the limiter nothing, a message refused for its recipient or itself the global token alone, any other what allow charges |
| RelayHandlers.SpoofingSpendsNothing | ratelimit.py:95-111 | a message its named sender did not sign changes no table and no identity's bucket |
| AntiEntropy.AntiEntropySync.PullItem | gossip.py:1300-1374 | the gates for one pulled row, in order, with the answer of `Answers.OutcomeIff` |
| AntiEntropy.AntiEntropySync.SyncWithPeer | gossip.py:1283-1378 | a failed or oversized response changes nothing; otherwise the page is read to its end or the first rate limit, then the cursor is stored; tables, cursor, limiter and pushes |
| AntiEntropy.AntiEntropySync.SyncDeletionsWithPeer | gossip.py:1380-1457 | the same for tombstones, under the same size limit |
| Refinement.PullIsMeshRun | gossip.py:1283-1378 | reading a page row by row in the mesh leaves the tables, cursor and pushes of the loop, and every other relay alone |
| Refinement.SyncReachesMeshState | gossip.py:1270-1378 | so a sync from any reachable state of the mesh, completed or refused, reaches a state of the mesh |
| Refinement.DeletionPullIsMeshRun | gossip.py:1380-1457 | the tombstone loop, row by row in the mesh |
| Refinement.DeletionSyncReachesMeshState | gossip.py:1380-1457 | a tombstone sync from any reachable state reaches a state of the mesh |
| Refinement.PublishIsMeshStep | relay.py:396-488 | a publish, as the handler's contract states it, is the mesh's step: tables, and one push to each peer of a new message |
| Refinement.RequestIsMeshStep | relay.py:544-586 | so is a delete, and one that is confirmed goes to every peer |
| Refinement.ArrivalIsMeshStep | gossip.py:617-739 | so is a push where it arrives, if and only if the two relays list each other |
| Refinement.DeleteSpreads | gossip.py:701-739 | a delete pushed to a relay that holds the message, at an address its requester owns there, is confirmed there and goes on to all its peers |
| Refinement.RestartReadsAgain | gossip.py:1256-1260 | a restart keeps the tables and reads every log from its start again |
| CatchUp.RoundAdvancesIff | gossip.py:1136-1153 | a round moves the cursor if and only if something lies above it, the page fits, and the first row is a duplicate, or has a global token and is over quota, invalid or granted the peer's token |
| CatchUp.DeletionRoundAdvancesIff | gossip.py:1415-1454 | the same for tombstones, where every row needs both tokens |
| CatchUp.BacklogIff | gossip.py:1297-1375 | with budget, n rounds take exactly 500 n rows off a static backlog if and only if each of those 500 rows fits one response |
| CatchUp.DeletionBacklogIff | gossip.py:1415-1454 | the same for tombstones |
| CatchUp.OversizedPageStalls | gossip.py:1147-1152 | a page that does not fit leaves the tables and the cursor as they were |
| CatchUp.BacklogStalls | gossip.py:1136-1153 | 25 messages behind, each at least the smallest size, no number of rounds moves the cursor |
| CatchUp.DeletionBacklogStalls | gossip.py:1136-1153 | 143 tombstones of 2048-bit keys behind, no number of rounds moves the cursor |
| ResponseText.MessagesFitIff | gossip.py:1136-1153 | a page of messages fits if and only if the JSON text of its response has at most 133086 characters |
| ResponseText.DeletionsFitIff | gossip.py:1136-1153 | the same of tombstones, with their times in isoformat() |
| ResponseText.FewMessagesFit | relay.py:58 | nineteen messages of the smallest padded size always fit, and so does any one that may be published |
| ResponseText.FewDeletionsFit | relay.py:58 | 138 tombstones of 2048-bit signatures and keys always fit |
| ResponseText.SmallBacklogRead | gossip.py:1297-1375 | a relay at most nineteen such messages behind catches up in one round with budget |
| ResponseText.SmallDeletionBacklogRead | gossip.py:1415-1454 | and one at most 138 such tombstones behind |
| DayWindow.DayIsCalendarDay | protocol.py:71-76 | the day of an instant is the number of its UTC calendar day; two times share it if and only if their dates are the same text |
| DayWindow.WindowExact | gossip.py:889-894 | the candidates are exactly the key's addresses of today and the lookback days before: no later day, no other key |
| DayWindow.WindowComplete | client.py:644-649 | an address used up to the retention time and a day ago is a candidate |
| DayWindow.WindowFitsFetch | relay.py:829 | there are exactly as many candidates as a fetch may name |
| Fetch.FetchExact | relay.py:525-542 | a fetch is rejected for its list alone; otherwise its answer is the one list of rows for the addresses asked for whose text has not lapsed, in id order |
| Fetch.SweepsInvisible | relay.py:713-720 | sweeps at any earlier times are invisible to a fetch |
| Fetch.FetchBounded | relay.py:532-542 | under every interleaving a response has at most the quota for each address asked for |
| Fetch.OwnerFetchesAndDeletes | gossip.py:1016-1040 | for the retention time and a day after the day it was addressed on, an owner's delete of a stored message is confirmed, and its fetch is accepted and returns the message if and only if its text has not lapsed |
| Timestamps.IsoOrderIsTimeOrder | relay.py:287-301 | for isoformat() texts of any two UTC times, with or without microseconds, byte order is time order |
| Timestamps.ZuluExpiryMisjudged | relay.py:292-301 | a Z-spelled expiry compares correctly unless it falls in the present second with no microseconds or the same ones |
| Timestamps.EveryTextLapses | relay.py:532-539 | every text whatever has one instant before which it sorts after the present and from which it does not |
| Timestamps.IsoLapsesOnExpiry | relay.py:287-301 | an isoformat() text lapses when it expires |
| Timestamps.ZuluLapses | relay.py:292-301 | a Z-spelled text lapses a microsecond late, or at the end of its second |
| Timestamps.SeparatedLapses | relay.py:287-301 | the instant at which a text with any separator lapses: its expiry for T, the midnight before for a character below T, the midnight after for one above |
| Timestamps.SeparatorMisjudged | relay.py:287-301 | such a text compares correctly unless the present is on its day, on the wrong side of its expiry for the side of T its separator lies |
| Timestamps.SeparatedSteadyIff | relay.py:303-307 | such a text lapses at least the shortest time to live early if and only if its separator lies below T and it expires at least that long after midnight |
| Timestamps.BasicLapses | relay.py:287-301 | a text with its date written without dashes lapses at the end of its year |
| Padding.PadRoundTrip | client.py:213-246 | padding succeeds exactly up to 65532 bytes, gives the smallest of 4096, 16384 and 65536 that fits, and unpads to the plaintext for any random fill |
| Padding.PadLayout | client.py:227-231 | the bytes of a padded message: the length in four, the highest first, the plaintext, then noise up to the end |
| Padding.LengthHidesContent | client.py:213-236 | plaintexts of one length pad to one length |
| Padding.UnpadExact | client.py:239-246 | unpadding accepts exactly a length in four bytes, the highest first, followed by at least that many bytes |
| Padding.Base64Exact | protocol.py:25-26 | the length of base64 text is four for each group of three bytes, the last perhaps incomplete |
| Padding.PaddedFitsPublish | protocol.py:16-28 | any padded message, encrypted, tagged and in base64, stays within the derived publish size, 88724 bytes |

## Left out

- Mesh.RunKeeps: takes a handler, and a pulled row, as one uninterrupted step, because the property fails between locked sections; Interleaving and Schedules state exactly where.
- Runs.NoResurrection: for uninterrupted handlers; Schedules.NoResurrectionIff and Schedules.OrderlyNeverResurrects are for interleaved ones.
- Convergence.Converges: says nothing of a message that has expired by some relay's clock; the age of a pulled tombstone is not checked by the code, so relays that reap at different times can hand an old one back and forth, and no claim is made that reaping ends everywhere.
- DayWindow.WindowComplete: for a sender whose clock is not ahead of the relay's day; the window looks only backwards, as DayWindow.WindowExact states.
- Timestamps.EveryTextLapses: for week dates, compact times, other fractions and other spellings of a zero offset, that a text lapses at one instant is proved but the instant is not computed.
- Signatures, encryption, blinding, certificates, TLS and key files: library calls, idealised as above.
- Sockets, Tor, HTTP parsing, status codes, JSON and malformed requests: a malformed payload is one flag, and each handler keeps its sequence of checks.
- Limits on the lengths of identifiers, and the `received_at` column, which nothing reads back.
- SQLite's secure delete, journal and vacuum: effects on the file, not on the rows.
- The trust store's hot reload and blacklist, peers.json checks, connection limits, relay locks, command line and terminal output: they would only add easy members.
- The calls of `insert_message_and_maybe_gossip` without a quota or without a gossip context: no caller in relay.py or gossip.py makes them.
- Rounding of floating point in the limiter.
