# Echolet: message delivery and first contact, proved

Echolet is a store-and-forward encrypted messenger: a Go relay and a TypeScript command-line client. This
project models the two protocols it rests on and a few small cores beside them, and proves what they promise
over every input, every run and every interleaving of steps.

**Mailbox delivery.** `MailboxState` is one mailbox as a value: primary records, the relay-assigned ordering
index, the next-position counter, a read mark per device. `Paging` is selection under a count and a byte bound,
`WireSize` an envelope's JSON text and the admission check, `PageFit` whether the client can read a page,
`Backfill` the interruptible migration that numbers old records, `StaleTail` what an interruption can leave
behind, `MailboxRepository` and `MailboxHandler` the relay's classes over it, `RouteAnswers` what its routes
answer. `ReadMark` is the machine of one recipient device walking that mailbox, `MarkSafety` exactly when its mark
is safe, `ClientStore` and `Inbound` the recipient's store and messenger, `PollWalk` one poll as a function,
`PollDrain`, `PollBlocked` and `DrainExactly` exactly which mailboxes polls drain, `PollAnswers` what a poll
answers, `PollRefinement` the refinement of a poll to steps of the machine. `Delivery` puts senders, wire, relay
and recipient together, `DeliveryLoss` is the one way it loses an envelope, `DeliveryRefinement` and `Sending`
refine the recipient's and the sender's commands to it; `Outbound` is the sender's messenger; `Quota` a sender's
allowance when check and store are separate steps.

**First contact.** `PreKeyRelay` is the relay's store of signed prekey bundles and claims, `PreKeyPool` the
recipient's prekey allocator and its pool of twenty publications, `PoolRuns` both together as a machine,
`PoolPublish` the `relay publish` command, `FirstContact` the sender's durable claim.

**Smaller cores.** `Base64Url` (the two canonical-encoding tests), `RateLimiter` and `RateWindows`, `History`,
`EncryptedStore`, and `Decimals` for the decimal keys and tokens everything above sorts and resumes by.

Each atomic transaction of the stores underneath is one step. Classes keep the program's fields and are proved
against functions on values; what routes, judgements, claims and the limiter answer is stated again without those
functions, on the fields alone; machines then range over all sequences of steps, including crashes, lost and
repeated messages, expiry and the actions of others. Every `...IsARun` lemma ties a method's function to steps of
a machine.

## What the proofs found

- An interrupted migration whose retry finds fewer records leaves index entries at and above the counter. The
  relay can then name a cursor it has not issued, the next envelope is given that position, and a read position
  reported later passes the envelope unseen (`StaleTail`). Exactly two unexpired entries there, the first below
  10^15, that can both be live before the counter reaches the first make this possible, and whenever they are
  there some run does it (`MarkSafety`). Index completeness holds all the same, and a re-walk loses nothing in
  such a mailbox either (`ReadMark`).
- Two live entries there, or one at sixteen digits with another behind it, also stop a walk: the relay refuses the
  report of its own cursor. From a mark, with one envelope a page and nothing accepted, no number of polls then
  ends. A page that holds them all, or a pending re-walk short of sixteen digits, gets past (`PollBlocked`). This
  and an envelope too long for the client, which no poll gets past wherever it lies ahead, are the only ways in
  which polls do not drain a mailbox (`DrainExactly`).
- A record stored while no ordering index was kept is found only if the mailbox has never allocated a position;
  the comment at lines 658-659 of apps/relay/internal/storage/repository/mailbox_repo.go promises more than the
  early return at lines 669-671 does. The model follows the code.
- Acknowledgements, and the quota's exemption for replays, go by envelope identifier alone. Two different
  envelopes under one identifier can therefore cost one of them, after its sender was told it is delivered
  (`DeliveryLoss`), or take a sender past its allowance (`Quota`); without a shared identifier both promises hold.
  The allowance holds with shared ones only while the sender has too few identifiers to pass it; an envelope once
  stored is in danger only from an acknowledgement under way or from another one offered already.
- The admission check bounds a ciphertext's bytes and not its characters, while the stored JSON writes `<`, `>`
  and `&` as six bytes. An admitted envelope can therefore be longer than the whole response the client reads, and
  the first-envelope exemption serves it (`PageFit`). Every envelope the clients write fits, for every shared
  maximum above 1024 bytes; at or below it the budget is not positive, which selection reads as "no bound".
- A closed minute admits at most one request less than twice the limit, and that is attained.

## Model

| member | source | states |
|---|---|---|
| `Decimals.PaddedKeysSortNumerically` | apps/relay/internal/storage/repository/mailbox_repo.go:569-571 | zero-padded keys of one width sort by bytes exactly as their numbers, and equal keys are equal numbers |
| `Decimals.WidthsSuffice` | apps/relay/internal/storage/repository/mailbox_repo.go:542-571 | twenty digits hold every 64-bit position, sixteen every safe integer |
| `Decimals.CursorRoundTrip` | apps/relay/internal/storage/repository/mailbox_repo.go:305-339 | the relay reads its own token back as the position it issued exactly below 10^15, and refuses it from there on |
| `Decimals.AcceptedCursorIsBounded` | apps/relay/internal/storage/repository/mailbox_repo.go:322-339 | any accepted token stands for a position below 10^15 |
| `Decimals.AcceptedCursorsAre` | apps/relay/internal/storage/repository/mailbox_repo.go:322-339 | a token is read exactly when it is empty, the head, or up to fifteen decimal digits, the number they denote |
| `MailboxState.RetentionWindow` | apps/relay/internal/storage/repository/mailbox_repo.go:506-523 | a record stays visible exactly until the earlier of declared expiry and cap, and never after it expired |
| `MailboxState.RetentionNeverUnbounded` | apps/relay/internal/storage/repository/mailbox_repo.go:506-523 | the deadline that would mean "keep for ever" arises only in the first second of the epoch |
| `MailboxState.SaveKeepsOrdering` | apps/relay/internal/storage/repository/mailbox_repo.go:112-151 | a store keeps every visible record reachable below the counter and leaves no entry above it |
| `MailboxState.SaveKeepsCurrent` | apps/relay/internal/storage/repository/mailbox_repo.go:112-151 | after a store each record's own entry is still the latest that names it |
| `MailboxState.SaveKeepsPlaced` | apps/relay/internal/storage/repository/mailbox_repo.go:112-151 | a store keeps every visible record at an issued position of its own that no later issued one supersedes |
| `MailboxState.DeleteKeepsOrdering` | apps/relay/internal/storage/repository/mailbox_repo.go:496-500 | an acknowledgement, which removes only the primary record, keeps the ordering invariants |
| `MailboxState.ReplayIsInert` | apps/relay/internal/storage/repository/mailbox_repo.go:112-125 | an exact replay neither conflicts nor moves the envelope; a different one under a stored id is refused unchanged |
| `MailboxState.AMarkOnlyMovesForward` | apps/relay/internal/storage/repository/mailbox_repo.go:781-810 | a device's mark ends at the larger of what it was and what is reported; no other moves |
| `Paging.PageIsTheLongestAdmissiblePrefix` | apps/relay/internal/storage/repository/mailbox_repo.go:454-487 | a prefix of the live entries fits both bounds, the first envelope exempt, exactly when it is no longer than the page |
| `Paging.ServedIff` | apps/relay/internal/storage/repository/mailbox_repo.go:430-480 | a position is handed out exactly when its entry and its record are visible and the declared expiry is still ahead, on the fields of the mailbox |
| `Paging.PageCovers` | apps/relay/internal/storage/repository/mailbox_repo.go:430-490 | a page is live and ordered; its next cursor lies strictly beyond the resume position and covers everything live up to it; without a cursor it covers the rest |
| `Paging.PagesRefineTheScan` | apps/relay/internal/storage/repository/mailbox_repo.go:385-490 | for any bounds the pages concatenate to the scan of live entries in position order |
| `Paging.EnoughPagesReachTheEnd` | apps/relay/internal/storage/repository/mailbox_repo.go:385-490 | more pages than live entries always return the whole scan |
| `Paging.InterleavedWalkMissesNothing` | apps/relay/internal/storage/repository/mailbox_repo.go:385-490 | with sends, acknowledgements and expiry between pages, an entry live at every page is handed out or still ahead |
| `WireSize.AdmittedBytes` | apps/relay/internal/validation/validate.go:197-244 | an envelope that passes the admission check is as long as its escaped ciphertext, within 24 KiB for everything beside it |
| `WireSize.PlainEnvelopesAreShort` | apps/cli/src/runtime/outbound.ts:190 | with a base64url ciphertext, as the clients write it, it is at most the maximum and those 24 KiB long |
| `WireSize.CostlyEnvelopesAreLong` | apps/relay/internal/storage/repository/mailbox_repo.go:93 | the check restricts no characters: a ciphertext of the largest size that is all `<` is admitted and stored at over six times the maximum |
| `WireSize.EscapesOfAscii` | apps/relay/internal/storage/repository/mailbox_repo.go:93 | how many bytes each ASCII character takes in the stored text: six for `<`, `>`, `&` and most controls, two for quote, backslash and the named controls, else one |
| `PageFit.PageFitsIff` | apps/relay/internal/storage/repository/mailbox_repo.go:454-487 | a page fits the client exactly when it is not one envelope that, with the text around it, is alone longer than the client's bound |
| `PageFit.SharedMaximumAgrees` | apps/relay/internal/api/handler/mailbox_handler.go:87-108 | the relay's budget is positive and leaves room under the client's bound exactly for shared maxima above 1024 bytes |
| `PageFit.EveryPageFitsTheClient` | apps/cli/src/transport/relayClient.ts:95-98 | for every such maximum, and any lower one a deployment admits with, each page of a mailbox the clients write to is one the client reads |
| `PageFit.AnEscapedCiphertextIsUnreadable` | apps/cli/src/transport/relayClient.ts:180-190 | from a maximum of 13108 bytes on, such an all-`<` envelope is admitted beside any other, and no response that starts with it can be read |
| `PageFit.AnUnreadableEnvelopeIsAdmitted` | apps/relay/internal/validation/validate.go:197-244 | a concrete one at the shared maximum |
| `PageFit.SmallMaximaLoseTheByteBound` | apps/relay/internal/api/handler/mailbox_handler.go:87-108 | at 1024 bytes or less selection has no byte bound, and a hundred waiting envelopes of 666 bytes make a response the client refuses |
| `PageFit.SmallMaximaAdmitSuchEnvelopes` | apps/relay/internal/validation/validate.go:170-244 | at every positive maximum any admitted envelope has a variant of more than that length which is admitted too, and there is one to start from |
| `Backfill.AscendingIsUnique` | apps/relay/internal/storage/repository/mailbox_repo.go:676-704 | an iterator over keys visits them in the one ascending order |
| `Backfill.EnsureOrderingIsARun` | apps/relay/internal/storage/repository/mailbox_repo.go:660-729 | however many of its transactions commit, the migration is a run of the relay machine |
| `Backfill.AWholeMigration` | apps/relay/internal/storage/repository/mailbox_repo.go:660-729 | when no transaction fails each visible record gets the position of its rank in key order with its own deadline, and the counter stands behind the last |
| `Backfill.EveryLiveRecordIsSelectable` | apps/relay/internal/storage/repository/mailbox_repo.go:660-729 | over every run with interrupted and retried migrations, once the counter exists every live record is selectable below it |
| `Backfill.PositionsAreNeverReissued` | apps/relay/internal/storage/repository/mailbox_repo.go:625-637 | positions are allocated strictly increasing and never twice |
| `Backfill.UninterruptedRunsHaveNoTail` | apps/relay/internal/storage/repository/mailbox_repo.go:660-749 | without an interruption no index entry, so no cursor, lies above the highest issued position |
| `Backfill.EveryReachableMailboxIsPlaced` | apps/relay/internal/storage/repository/mailbox_repo.go:660-729 | over every run, interruptions included, each visible record has an issued position of its own that no later issued one supersedes |
| `StaleTail.CursorsStayWithinIssuedIff` | apps/relay/internal/storage/repository/mailbox_repo.go:738-749 | no page of any shape names a cursor above every issued position exactly when fewer than two live entries lie there |
| `StaleTail.AnInterruptedMigrationCanHideAnEnvelope` | apps/relay/internal/storage/repository/mailbox_repo.go:706-729 | a concrete run of the relay whose stale entries are served and whose next envelope is given a position a page has already named |
| `StaleTail.AnInterruptedMigrationBreaksTheReadMark` | apps/relay/internal/api/handler/mailbox_handler.go:588-630 | the same run continued by a fresh device: its mark ends at 3, where a live envelope lies that it was never offered |
| `StaleTail.MarkSafetyOfReachableMailboxes` | apps/relay/internal/storage/repository/mailbox_repo.go:660-749 | whatever happened to a relay, a fresh device is safe over every run exactly when its mailbox is not armed; without an interruption it never is |
| `StaleTail.RawRecordsAreFoundOnlyBeforeTheCounter` | apps/relay/internal/storage/repository/mailbox_repo.go:639-675 | a record stored without an index entry becomes selectable exactly when no position was ever allocated |
| `MailboxRepository.ListRecords` | apps/relay/internal/storage/repository/mailbox_repo.go:676-704 | the migration sees the visible records in key order |
| `MailboxRepository.Visit` | apps/relay/internal/storage/repository/mailbox_repo.go:436-480 | one index entry is skipped, taken, or ends the page, and the page under construction stays a cut of the scan |
| `MailboxRepository.Select` | apps/relay/internal/storage/repository/mailbox_repo.go:430-490 | the selection loop returns exactly the specified page |
| `MailboxRepository.Occupied` | apps/relay/internal/storage/repository/mailbox_repo.go:229-278 | a stored id answers at once; else the live envelopes of that sender are counted up to the limit |
| `MailboxRepository.Repository.EnsureMailboxOrdering` | apps/relay/internal/storage/repository/mailbox_repo.go:660-729 | the batched backfill leaves exactly the specified index and counter, whichever transaction fails |
| `MailboxRepository.Repository.SaveEnvelope` | apps/relay/internal/storage/repository/mailbox_repo.go:92-151 | the whole new state and the answer of a store, including replay, conflict and failed migration |
| `MailboxRepository.Repository.GetEnvelopeBatchFrom` | apps/relay/internal/storage/repository/mailbox_repo.go:385-490 | malformed cursor, zero limit, failed migration, or the specified page |
| `MailboxRepository.Repository.DeleteEnvelope` | apps/relay/internal/storage/repository/mailbox_repo.go:496-500 | only the primary record goes |
| `MailboxRepository.Repository.AckEnvelopes` | apps/relay/internal/service/mailbox_service.go:65-72 | the loop of separate deletes is the specified sequence of them |
| `MailboxRepository.Repository.AdvanceReadMark` | apps/relay/internal/storage/repository/mailbox_repo.go:781-810 | the mark moves forward and only forward, and nothing else moves |
| `MailboxRepository.Repository.SenderOccupancy` | apps/relay/internal/storage/repository/mailbox_repo.go:229-278 | the capped count decides "at the limit" exactly as the full count does |
| `MailboxRepository.Repository.HighestIssuedPosition` | apps/relay/internal/storage/repository/mailbox_repo.go:738-749 | the last position the counter handed out |
| `MailboxHandler.PollBatchSize` | apps/relay/internal/api/handler/mailbox_handler.go:670-679 | positive, within the server's maximum, and the client's wish whenever that is allowed |
| `MailboxHandler.Handler.PollMailbox` | apps/relay/internal/api/handler/mailbox_handler.go:521-665 | every refusal in its order, the mark moved only by an accepted report, and the page resumed from cursor or mark; an unestablished request is refused and changes nothing |
| `MailboxHandler.Handler.AckMailbox` | apps/relay/internal/api/handler/mailbox_handler.go:694-798 | refused without a change, as unauthorized exactly when it is well-formed and not established, or every named envelope deleted and the report applied |
| `MailboxHandler.Handler.SendEnvelope` | apps/relay/internal/api/handler/mailbox_handler.go:130-201 | each refusal exactly when, the quota one at the configured number or sixteen, none with a change; a stored id is never charged; what is taken is stored |
| `RouteAnswers.APollIsAnsweredIff` | apps/relay/internal/api/handler/mailbox_handler.go:521-665 | over every request: a page exactly when it is well-formed, established, its report issued, its resume place readable and the mailbox ordered; each refusal exactly when; and which page |
| `RouteAnswers.WhatAPollMoves` | apps/relay/internal/api/handler/mailbox_handler.go:605-630 | an established poll moves this device's mark forward to what it reports and nothing else of an ordered mailbox |
| `RouteAnswers.ASendIsAnsweredIff` | apps/relay/internal/api/handler/mailbox_handler.go:130-201 | over every envelope and mailbox: each of the six answers exactly when, on their fields and the configured allowance, and what is stored |
| `ReadMark.ReadMarkNeverPassesAnUnjudgedEnvelope` | apps/relay/internal/api/handler/mailbox_handler.go:588-630 | over every run from an unarmed mailbox, the very envelope live at or below a device's mark has been judged by it, and the mark is an issued position |
| `MarkSafety.AnArmedMarkIsUnsafe` | apps/relay/internal/api/handler/mailbox_handler.go:588-630 | from every armed mailbox a run moves the mark to a live envelope the device never judged |
| `MarkSafety.MarkIsSafeIffUnarmed` | apps/relay/internal/storage/repository/mailbox_repo.go:738-749 | the mark is safe over every run if and only if no two unexpired index entries above the counter, the first below 10^15, can both be live before the counter reaches the first |
| `ReadMark.EveryLiveEnvelopeIsJudgedOrAhead` | apps/cli/src/runtime/inbound.ts:171-210 | over every such run, each live envelope has itself been judged or lies where the next cursorless poll starts |
| `ReadMark.RewalkLosesNothing` | apps/cli/src/runtime/profile.ts:176-247 | from every mailbox whose records have positions, armed ones included, and over every run with crashes anywhere: an envelope live since the import whose own position is not beyond a pending re-walk, or any when none is pending, has been judged since |
| `ReadMark.HeldHasItsPosition` | apps/relay/internal/storage/repository/mailbox_repo.go:430-490 | each envelope live since the import has such a position, an issued one at which pages hand it out |
| `ReadMark.HeldIsLiveEverSince` | apps/cli/src/runtime/profile.ts:176-178 | an envelope live at an import is one that theorem speaks of for as long as it stays live |
| `ClientStore.AcceptOneIsExactlyOnce` | apps/cli/src/runtime/inbound.ts:249-280 | an accepted envelope is committed with its acknowledgement, history grows by one entry exactly when the message is new, and nothing earlier changes |
| `ClientStore.WhichRejection` | apps/cli/src/runtime/inbound.ts:249-280 | each of the five rejections, and acceptance, exactly when, on the fields of store and envelope |
| `ClientStore.ImportKeepsConsistent` | apps/cli/src/runtime/profile.ts:434-445 | importing a contact keeps committed messages tied to pinned devices |
| `Delivery.InboundHistoryIsExactlyOnce` | apps/cli/src/runtime/inbound.ts:249-280 | over every run at most one inbound entry per sender and message, with the plaintext an honest sender committed |
| `Delivery.AcknowledgedIsCommitted` | apps/cli/src/runtime/inbound.ts:281-290 | every acknowledged identifier belongs to an accepted envelope whose message is in the history |
| `Delivery.AcceptedEnvelopesAreNotLost` | apps/relay/internal/storage/repository/mailbox_repo.go:112-151 | every accepted envelope is stored, past its deadline or committed, unless its identifier was accepted for another envelope |
| `DeliveryLoss.TheRelayCanLoseItIff` | apps/relay/internal/storage/repository/mailbox_repo.go:496-500 | in every reachable world a step of the relay can lose a stored, uncommitted envelope if and only if its identifier was acknowledged, and then it was shared |
| `DeliveryLoss.SomeRunLosesItIff` | apps/relay/internal/storage/repository/mailbox_repo.go:496-500 | from every reachable world some run loses a stored, uncommitted envelope before its deadline if and only if its identifier was acknowledged, is pending acknowledgement, or was already offered for another envelope that can still be accepted |
| `DeliveryLoss.AStoredEnvelopeCanBeLostIff` | apps/cli/src/runtime/inbound.ts:249-280 | the same as a test on the world, whatever decryption may yet say: that other envelope is addressed to the recipient, in time before the deadline, its sender is not pinned to another device, nothing else is committed under its message, and it is no copy |
| `DeliveryLoss.AnOpenedThreatContends` | apps/cli/src/runtime/inbound.ts:249-280 | with a given Signal session such an envelope can be accepted once the session opens it now or has opened it before |
| `DeliveryLoss.AReusedIdentifierIsDeletedUnread` | apps/relay/internal/storage/repository/mailbox_repo.go:496-500 | how: an old acknowledgement deletes a new envelope under the same identifier |
| `DeliveryLoss.ADeliveredMessageIsLost` | apps/relay/internal/storage/repository/mailbox_repo.go:496-500 | a run from nothing after which a message its sender was told is delivered is neither in the mailbox nor committed |
| `Delivery.DeliveredMessagesAreNotLost` | apps/cli/src/runtime/outbound.ts:280-291 | what a sender was told is delivered is stored, past its deadline or committed, unless its identifier was accepted for another envelope |
| `Delivery.OutboxIsStable` | apps/cli/src/runtime/outbound.ts:182-220 | from its commit on, a message's content and its one envelope never change |
| `Delivery.OutboundHistoryMatchesOutbox` | apps/cli/src/runtime/outbound.ts:209-212 | exactly one outbound history entry exists for a message exactly when its outbox record does |
| `DeliveryRefinement.PollIsADeliveryRun` | apps/cli/src/runtime/inbound.ts:122-225 | a whole poll, whatever its outcome, is a run of the delivery machine that moves only the recipient and the mailbox |
| `DeliveryRefinement.DrainIsADeliveryRun` | apps/cli/src/runtime/inbound.ts:122-225 | any number of polls at rising clocks, with the recipient's earlier acknowledgements arriving in between, are one run, so exactly-once and no-loss hold of the store they leave |
| `Sending.CommitIsARun` | apps/cli/src/runtime/outbound.ts:182-215 | the commit of a new message is a step of the machine |
| `Sending.DeliveryIsARun` | apps/cli/src/runtime/outbound.ts:280-291 | a delivery, delivered before, refused or taken, is a run of it |
| `Sending.RetryIsARun` | apps/cli/src/runtime/outbound.ts:292-299 | a retry of pending messages, up to a refusal, is a run of it |
| `Sending.DeliveriesKeepMessages` | apps/cli/src/runtime/outbound.ts:292-299 | deliveries change nothing of a message but that it is delivered, and all of them are when none is refused |
| `Sending.ARetryStopsAtTheFirstRefusal` | apps/cli/src/runtime/outbound.ts:292-299 | a retry delivers and names the messages before the first refusal, in order, and leaves that one and the rest as they were |
| `PollWalk.JudgeAllFacts` | apps/cli/src/runtime/inbound.ts:232-248 | each envelope of a page is refused, or accepted with its acknowledgement pending; acknowledgements are only added, and a page refused whole leaves the store as it was |
| `PollWalk.JudgingCommitsOrRefuses` | apps/cli/src/runtime/inbound.ts:232-280 | each envelope is committed in the resulting store or refused, and nothing committed before is lost or replaced |
| `PollWalk.WalkCommits` | apps/cli/src/runtime/inbound.ts:155-210 | so it is of everything a page loop has judged, however it goes on or ends |
| `PollWalk.HonestRequestsAreAnswered` | apps/relay/internal/api/handler/mailbox_handler.go:588-665 | a request that reports an issued position, or none, is answered with the page from its cursor and exactly that mark |
| `PollWalk.OtherReportsAreRefused` | apps/relay/internal/api/handler/mailbox_handler.go:588-630 | a report above the issued positions, or of sixteen digits, is refused without a change |
| `PollWalk.PagesAreRead` | apps/cli/src/transport/relayClient.ts:154-190 | every page of a walk through a mailbox that can be walked is one the client reads, and ends where the next request can name it |
| `PollWalk.WalkAchieves` | apps/cli/src/runtime/inbound.ts:171-210 | from any point of the page loop: the end is reached with everything beyond the start seen, or a live position is behind for good; and everything seen was accepted or refused |
| `PollAnswers.WhatAPollAnswers` | apps/cli/src/runtime/inbound.ts:214-224 | a rejection is raised exactly when every page was served, something was seen and all of it is refused, and it is that of the first envelope, an unknown sender answered as one; otherwise what was accepted and refused is reported |
| `PollAnswers.APollWalksOn` | apps/cli/src/runtime/inbound.ts:171-210 | a poll that accepted nothing and says more remain has seen sixteen envelopes at least; one that accepted something saw no more than one page after the last it knew refused |
| `PollAnswers.AnOversizedResponseEndsThePoll` | apps/cli/src/transport/relayClient.ts:154-190 | a response of more than a hundred envelopes or a mebibyte ends the poll as failed with nothing of it judged |
| `PollAnswers.AKeptPositionIsReadable` | apps/cli/src/runtime/profile.ts:199-206 | a stored re-walk position is read back as it is, and anything else as the head of the mailbox |
| `PollDrain.PollShrinks` | apps/cli/src/runtime/inbound.ts:122-225 | a poll that leaves more to come makes what lies ahead of the next one strictly smaller, even when it raises a rejection or a re-walk is refused a report |
| `PollDrain.PollsDrainTheMailbox` | apps/cli/src/runtime/inbound.ts:62-75 | more polls than live entries ahead, whatever leaves the mailbox in between, always reach the end, and everything then still live was offered in them and refused |
| `PollDrain.DrainCommitsOrRefuses` | apps/cli/src/runtime/inbound.ts:122-225 | over any number of polls each envelope seen is committed in the store they leave or was refused, and nothing held before is lost |
| `DrainExactly.PollsDrainIff` | apps/cli/src/runtime/inbound.ts:62-75 | enough polls end whatever store, opener and page sizes and whatever leaves in between, if and only if the relay takes the token of every live entry ahead that has another behind it and the client reads every live envelope ahead alone |
| `DrainExactly.ClientsAreRead` | apps/cli/src/transport/relayClient.ts:95-98 | every envelope of a mailbox the clients write to is one the client reads alone |
| `PollBlocked.WalkStopsShort` | apps/cli/src/runtime/inbound.ts:155-210 | whatever the store, opener and page size, a walk from before an entry that pages stop at fails or leaves more to come, and the next one starts before it again |
| `PollBlocked.BlockedPollsNeverEnd` | apps/relay/internal/api/handler/mailbox_handler.go:588-630 | where the relay does not take a token, one to a page and everything refused, no number of polls ends, whatever else leaves, and nothing but positions moves |
| `DrainExactly.AStaleTailNeedsARewalk` | apps/relay/internal/storage/repository/mailbox_repo.go:706-729 | the mailbox an interrupted migration leaves is such a one from a fresh mark, and drains under a pending re-walk |
| `PollBlocked.AnUnreadableEnvelopeStopsEveryPoll` | apps/cli/src/transport/relayClient.ts:180-190 | an envelope too long for the client, anywhere ahead and with no acknowledgement of its identifier pending, is passed by no number of polls and acknowledged by none, whatever store, opener, page sizes and departures |
| `PollRefinement.PollIsARun` | apps/cli/src/runtime/inbound.ts:122-225 | a whole poll is a run of the read-mark machine with everything it saw judged |
| `PollRefinement.EveryReachableMailboxDrains` | apps/cli/src/runtime/inbound.ts:122-225 | from every state a run reaches, crashes and armed mailboxes included, in which the relay takes every page end's token and the client reads every envelope alone beyond the next start: enough polls, whatever leaves in between, reach the end with everything then live beyond that start refused in them |
| `PollRefinement.ReadBackIsEnough` | apps/relay/internal/api/handler/mailbox_handler.go:588-630 | with a re-walk pending, or from an unarmed mailbox, the relay takes those tokens as soon as it reads them back |
| `Inbound.DeleteAllIsOneRemoval` | apps/relay/internal/service/mailbox_service.go:65-72 | separate deletes amount to removing the named identifiers |
| `Inbound.InboundMessenger.AcceptOne` | apps/cli/src/runtime/inbound.ts:249-280 | one transaction: the specified store, or the rejection, pinned by `WhichRejection`, and no change |
| `Inbound.InboundMessenger.Accept` | apps/cli/src/runtime/inbound.ts:232-248 | the loop judges the page as specified and keeps the first rejection |
| `Inbound.InboundMessenger.WalkPages` | apps/cli/src/runtime/inbound.ts:155-210 | the page loop leaves the specified store, mailbox, counts and rejections, and fails on a refusal or an oversized response |
| `Inbound.InboundMessenger.Poll` | apps/cli/src/runtime/inbound.ts:122-225 | walk, first rejection raised when nothing was accepted, else acknowledgements |
| `Inbound.InboundMessenger.AckPending` | apps/cli/src/runtime/inbound.ts:281-290 | chunks of a hundred deliver and forget every pending acknowledgement, or the relay refuses the first and nothing changes |
| `Inbound.InboundMessenger.PendingMailboxRewalk` | apps/cli/src/runtime/profile.ts:199-206 | the position is peeked at; anything that is no token reads as the head |
| `Outbound.OutboundMessenger.RequestClaim` | apps/cli/src/runtime/outbound.ts:250-254 | a claim can only be requested under the identifier that is stored at that moment |
| `Outbound.OutboundMessenger.ClaimFirstContact` | apps/cli/src/runtime/outbound.ts:250-274 | one request, or two with the key replaced exactly when the first bundle is the pinned contact's and outside its window; each answer judged by pin and window |
| `Outbound.ADeadClaimIsReplaced` | apps/cli/src/runtime/outbound.ts:260-269 | a send that finds its claim dead comes away with the oldest eligible bundle under a new identifier after two requests, when that is the pinned contact's and in its window |
| `Outbound.APinIsEveryField` | apps/cli/src/runtime/outbound.ts:256-260 | a claimed bundle is refused as a pin mismatch exactly when a pinned field differs or it has no one-time prekey, and as expired exactly when its window is closed |
| `Outbound.OutboundMessenger.SendOwned` | apps/cli/src/runtime/outbound.ts:132-220 | used ids never change and other content is refused; a new message is committed once with one entry and an envelope good for a day; only it reaches the relay; and the whole command is a run of the delivery machine |
| `Outbound.OutboundMessenger.Deliver` | apps/cli/src/runtime/outbound.ts:280-291 | delivered is noted exactly when the relay took this envelope |
| `Outbound.OutboundMessenger.RetryPending` | apps/cli/src/runtime/outbound.ts:292-299 | outbox, relay mailbox, results and refusal are those of the pending deliveries made in key order; without a refusal all end delivered; and it is a run of the delivery machine |
| `Outbound.ARetryMovesNothing` | apps/relay/internal/api/handler/mailbox_handler.go:169-189 | a retry of a stored envelope is answered alike at any occupancy and moves nothing |
| `Outbound.FirstClaimIsARun` | apps/cli/src/runtime/outbound.ts:250-274 | the claim loop is a run of the first-contact machine |
| `Outbound.CommitIsAStep` | apps/cli/src/runtime/outbound.ts:180-214 | and the commit is a step of it, under a verified bundle or under a session there already was: it leaves a session and no claim identifier |
| `Quota.QuotaHoldsUpToBorrowedIdentifiers` | apps/relay/internal/api/handler/mailbox_handler.go:334-365 | over every run with k requests in flight a sender holds at most quota + k - 1 envelopes plus the identifiers it borrowed |
| `Quota.QuotaHoldsForOwnIdentifiers` | apps/relay/internal/api/handler/mailbox_handler.go:334-365 | with identifiers of its own it holds at most quota + k - 1, and quota when sequential |
| `Quota.TheConfiguredAllowanceHolds` | apps/relay/internal/api/handler/mailbox_handler.go:334-365 | the same at the number the relay is configured with, or at sixteen when it has none |
| `Quota.ASharedIdentifierBreaksTheQuota` | apps/relay/internal/storage/repository/mailbox_repo.go:229-278 | whenever a sender holds quota + k - 1 envelopes, a record of another sender under the same id lets it go one further |
| `Quota.ARunBreaksEveryQuota` | apps/relay/internal/storage/repository/mailbox_repo.go:229-278 | for every positive quota and every k a run from an empty mailbox ends with quota + k envelopes, one more than the bound, through one shared identifier |
| `Quota.QuotaHoldsIff` | apps/relay/internal/api/handler/mailbox_handler.go:334-365 | the bound quota + k - 1 holds over every run in which the sender and the others name only given identifiers if and only if none is shared, the sender has fewer than quota + k, or the retention cap is zero and nothing is kept |
| `Quota.SendRouteIsCheckThenStore` | apps/relay/internal/api/handler/mailbox_handler.go:169-189 | the send route is the two steps of the machine |
| `PreKeyRelay.PreKeysAreConserved` | apps/relay/internal/storage/repository/signal_prekey_bundle_v2.go:38-206 | over every run each bundle is available or bound to exactly one claim, the counts add up, and distinct claims get distinct prekeys |
| `PreKeyRelay.ReservationsAreUnique` | apps/relay/internal/storage/repository/signal_prekey_bundle_v2.go:63-76 | no two stored bundles share a reserved tuple or public key |
| `PreKeyRelay.AClaimIsReplayedForEver` | apps/relay/internal/storage/repository/signal_prekey_bundle_v2.go:141-155 | a repeated claim with the same selector gets the same bytes after any run, with another it is refused |
| `PreKeyRelay.AFreshClaimTakesTheOldest` | apps/relay/internal/storage/repository/signal_prekey_bundle_v2.go:159-200 | a fresh claim gets the oldest eligible bundle, and nothing exactly when none is eligible |
| `PreKeyRelay.AClaimIsServedIff` | apps/relay/internal/storage/repository/signal_prekey_bundle_v2.go:159-200 | on what is stored: a fresh claim is served exactly when an unclaimed bundle of that identity and device is in its window, and gets the oldest |
| `PreKeyRelay.RepublicationAnswersTruthfully` | apps/relay/internal/storage/repository/signal_prekey_bundle_v2.go:46-58 | a repeated publish changes no bundle and says whether it can still be claimed |
| `PreKeyRelay.APublishIsAnsweredIff` | apps/relay/internal/storage/repository/signal_prekey_bundle_v2.go:38-129 | over every bundle and state: each refusal exactly when, none with a change, and what is stored when there is none |
| `PreKeyRelay.ADeviceKeepsItsKey` | apps/relay/internal/storage/repository/signal_prekey_bundle_v2.go:100-129 | over every run a published device keeps its key |
| `PreKeyRelay.PreKeyBundleRepository.SaveSignalV2` | apps/relay/internal/storage/repository/signal_prekey_bundle_v2.go:38-97 | one transaction over all indexes, rolled back whole on every refusal |
| `PreKeyRelay.PreKeyBundleRepository.SaveAuthorization` | apps/relay/internal/storage/repository/signal_prekey_bundle_v2.go:100-129 | the device record is confirmed, added within the cap, or refused |
| `PreKeyRelay.PreKeyBundleRepository.ClaimSignalV2` | apps/relay/internal/storage/repository/signal_prekey_bundle_v2.go:139-206 | replay, conflict, the first eligible key of the iterator, or unavailable |
| `PreKeyPool.Profile.RotateOneTimePreKey` | packages/session-node/src/SignalClient.ts:266-284 | the next identifier is one above everything held or on offer, or the space is exhausted |
| `PreKeyPool.TheNextIdIsOneAbove` | packages/session-node/src/SignalClient.ts:266-284 | the next prekey number is one above the largest held or on offer, and there is none from 0xffffff on |
| `PreKeyPool.Profile.RestorePublicationPool` | apps/cli/src/runtime/profile.ts:387-399 | stored members kept, empty slots filled from the highest down, all in one transaction |
| `PreKeyPool.Profile.ReplacePublicationSlot` | apps/cli/src/runtime/profile.ts:409-412 | one slot minted around a fresh prekey, or refused outside the pool |
| `PreKeyPool.AMintSigns` | apps/cli/src/runtime/profile.ts:353-365 | a mint signs the owner's own fields around the prekey on offer, for a week |
| `PreKeyPool.LowerSlotsAreYounger` | apps/cli/src/runtime/profile.ts:387-399 | of two slots filled together the lower one has the younger prekey |
| `PreKeyPool.TheFirstKeepsTheInitialPreKey` | apps/cli/src/runtime/profile.ts:348-353 | the first fill of an empty pool signs its highest slot around the prekey on offer and every other around a fresh one |
| `PoolRuns.PoolMembersAreDistinct` | apps/cli/src/runtime/profile.ts:353-412 | over every run any two slots carry different one-time prekeys |
| `PoolRuns.IdentifiersAreNeverReissued` | packages/session-node/src/SignalClient.ts:266-284 | over every run, consumption included, prekey identifiers are allocated strictly increasing |
| `PoolRuns.EveryMemberIsOfferable` | apps/relay/internal/storage/repository/signal_prekey_bundle_v2.go:46-76 | over every run no bundle the owner ever signed is refused for what the relay stores |
| `PoolPublish.SubmittingJudges` | apps/cli/src/runtime/outbound.ts:99-104 | submitting every member finds out exactly which ones the relay no longer serves |
| `PoolPublish.ReplacingServesAll` | apps/cli/src/runtime/outbound.ts:108-113 | replacing the dead slots ends with every slot served and the others byte-identical |
| `PoolPublish.LowerReplacementsAreYounger` | apps/cli/src/runtime/outbound.ts:105-113 | so it is of two dead slots replaced together |
| `PoolPublish.ARefusedMemberEndsThePublish` | apps/cli/src/runtime/outbound.ts:99-104 | a member refused for anything but its window ends the command with that refusal and nothing replaced |
| `PoolPublish.FillingCompletes` | apps/cli/src/runtime/profile.ts:387-399 | the fill mints one bundle per empty slot and moves no other |
| `PoolPublish.PublishRestoresThePool` | apps/cli/src/runtime/outbound.ts:92-124 | publish ends with twenty claimable members, minted is empty plus dead slots, live members are byte-identical, and it reports just that |
| `PoolPublish.AFirstPublishMintsTwenty` | apps/cli/src/runtime/outbound.ts:92-124 | a new profile's first publish mints and serves twenty members |
| `PoolPublish.Publisher.RestorePool` | apps/cli/src/runtime/outbound.ts:92-124 | the command's loops leave the specified keys, relay and report or failure |
| `FirstContact.FirstContactWastesNothing` | apps/cli/src/runtime/outbound.ts:169-274 | over every run, commits under the contact's own session included, one sender consumes at most one bundle more than it found outdated, and asks for at most two a send |
| `Base64Url.BothSidesAcceptTheSame` | packages/protocol/src/types/signalPreKeyBundleV2.ts:6-13 | for one byte and more the client accepts exactly what the relay accepts, the encodings with that first byte |
| `Base64Url.DecodesWhenCanonical` | packages/protocol/src/types/signalPreKeyBundleV2.ts:8-10 | length and spare bits decide exactly which letters decode to n bytes |
| `Base64Url.NoBytesAreTheException` | apps/relay/internal/validation/signal_prekey_bundle_v2.go:139-146 | at no bytes the relay's test accepts the empty string and the client's accepts nothing |
| `Base64Url.DecodeUndoesEncode` | packages/crypto-core/src/encoding/base64url.ts:1-20 | strict decoding undoes encoding |
| `Base64Url.EncodeBase64Url` | packages/crypto-core/src/encoding/base64url.ts:1-10 | platform encoder, replacements and trimming give the canonical encoding |
| `Base64Url.DecodeBase64Url` | packages/crypto-core/src/encoding/base64url.ts:12-20 | every canonical encoding is read back as its bytes |
| `RateLimiter.SweepingChangesNoDecision` | apps/relay/internal/middleware/rate_limit.go:86-115 | on every trace of a clock that does not go back the limiter answers as one that never sweeps |
| `RateLimiter.AMinuteAdmitsLessThanTwiceTheLimit` | apps/relay/internal/middleware/rate_limit.go:86-101 | any closed minute admits fewer than twice max(limit, 1) requests of a host |
| `RateLimiter.TheBoundIsAttained` | apps/relay/internal/middleware/rate_limit.go:86-101 | for every positive limit a trace attains that bound |
| `RateWindows.ARequestIsAdmittedIff` | apps/relay/internal/middleware/rate_limit.go:86-101 | on the trace alone: a request is admitted exactly when it opens a window of its host or is among the first `limit` of the one it falls into, refused ones counted |
| `RateWindows.APersistentHostIsAdmittedAgain` | apps/relay/internal/middleware/rate_limit.go:93-97 | the first request more than a minute after its host's window opened is always admitted |
| `RateWindows.OnlyRecentWindowsAreKept` | apps/relay/internal/middleware/rate_limit.go:104-115 | after any trace every window still remembered ended less than a minute before |
| `RateLimiter.Limiter.Allow` | apps/relay/internal/middleware/rate_limit.go:86-101 | one request accounted after the sweep, as specified |
| `RateLimiter.Limiter.Prune` | apps/relay/internal/middleware/rate_limit.go:104-115 | at most once an interval exactly the elapsed windows go |
| `History.HistoryStore.AppendHistory` | apps/cli/src/runtime/history.ts:10-17 | an entry is added at the end under the next number, or the sequence is exhausted |
| `History.HistoryStore.ReadHistory` | apps/cli/src/runtime/history.ts:18-21 | reading in key order and filtering gives one contact's entries in the order they were appended |
| `History.ConversationIsTheContacts` | apps/cli/src/runtime/history.ts:18-21 | what reading yields is every entry of that contact and no other, each once, in increasing number |
| `EncryptedStore.TransactionsAreSerial` | packages/session-node/src/EncryptedSqliteStore.ts:43-83 | over every run of single calls, throws, crashes and reopenings the snapshot is what the committed transactions wrote, each in full and in order of submission, and nothing of any other |
| `EncryptedStore.OnlyACommitMovesTheSnapshot` | packages/session-node/src/EncryptedSqliteStore.ts:60-83 | no call, throw or crash moves the snapshot; a commit moves it by all the writes of its transaction |
| `EncryptedStore.ReadsSeeOwnWrites` | packages/session-node/src/EncryptedSqliteStore.ts:64-72 | a read is answered from the committed snapshot and the transaction's own writes |
| `EncryptedStore.AReadFindsTheLastWrite` | packages/session-node/src/EncryptedSqliteStore.ts:64-72 | a key holds what the last write to it put, nothing if that deleted it, and else what it held |
| `EncryptedStore.ADeadHandleDoesNothing` | packages/session-node/src/EncryptedSqliteStore.ts:66-82 | once a transaction has ended, every later use of its handle is refused and changes nothing |
| `EncryptedStore.SubmissionsRunInOrder` | packages/session-node/src/EncryptedSqliteStore.ts:43-49 | from any reachable state on, without a crash, nothing submitted is lost or reordered |
| `EncryptedStore.EncryptedSqliteStore.Perform` | packages/session-node/src/EncryptedSqliteStore.ts:60-83 | the loop over an operation's calls: all its writes or no change, and each read from the snapshot and the writes before it |
| `EncryptedStore.PerformIsARun` | packages/session-node/src/EncryptedSqliteStore.ts:60-83 | the method leaves the snapshot the machine has after the same calls |

## Left out

- HTTP decoding, TLS, routing, server lifecycle, logging, configuration, transport errors: plumbing; a lost request or response is a step that does not happen.
- Cryptography: signatures and challenges arrive as one verdict, digests as equality of what they digest, and decryption as an oracle that yields only what the pinned sender sealed.
- Badger and SQLite: transactions are atomic; the bounded retry of a conflicting transaction and the busy error of a second process are not modelled.
- Keys across mailboxes: one mailbox at a time, and identifiers are numbers in the byte order of their keys, so an identifier with a separator in it is outside the model.
- Wrap-around of 64-bit positions and clocks: numbers are unbounded.
- Failures that are no verdict about an envelope: in `Inbound` a poll ends by a refusal of the relay or normally; storage failures, expired challenges and process exits are steps of `ReadMark` and `Delivery`.
- Commands of one profile running at the same time: an import during a walk could be overwritten by the walk's own position; likewise two sends replacing one outdated claim.
- The legacy mailbox listing, device-record routes, challenge issuing, cleanup service, version 1 bundles, attachments, contact-card export, TUI, web and mobile clients, operator tools, and the demo session.
- The client's refusal of oversized messages before sending, and the schemas of requests and responses beyond the number of envelopes and the bytes of a response: one-branch guards.
- PollDrain.PollsDrainTheMailbox: speaks of a relay that takes a hundred acknowledgements in one request and has its ordering index, because a smaller maximum refuses the client's own chunks.
- DeliveryRefinement.DrainIsADeliveryRun: of what leaves between polls it covers the recipient's own acknowledgements and, by the clock, expiry; the delivery machine has one device of the recipient, so another device's acknowledgements are no step of it.
- PageFit.EveryPageFitsTheClient: identifiers of senders and recipients may be any admitted text, ciphertexts only what the clients write, because otherwise the promise fails.
- Delivery.AcceptedEnvelopesAreNotLost: excludes an identifier the relay accepted for two different envelopes, because then the promise fails.
- PreKeyPool.Profile.MintPublicationSlot: a bundle minted after the initial prekey was consumed carries none and the relay refuses it; in `PoolRuns` a prekey is consumed only through a claimed bundle, so that case does not arise.
- PoolRuns.EveryMemberIsOfferable: other devices are taken not to publish this device's identifiers or public keys.
- PoolPublish.PublishRestoresThePool: speaks of a publish with no claim in between, agreeing clocks and identifiers left, as the command's own promise does.
- Base64Url.DecodeBase64Url: the platform's encoder and decoder are written from their standard, not from the repository.
- Canonical JSON across the two languages: the two version 1 forms treat nested objects differently, so no agreement is claimed.
