# anony-mail: a Dafny model of the receiving side

anony-mail receives mail over SMTP into short-lived mailboxes, under quotas and
in-memory abuse limits, and lets an app refresh its token by device attestation.
This project models the parts of it that are hard to get right and proves what they
promise, for all inputs and all runs. `dafny verify dfyconfig.toml` checks everything.

| file | what it holds |
|---|---|
| `DataWire.dfy` | what a DATA section means as bytes: lines, terminator, dot-unstuffing, stuffing |
| `SmtpReader.dfy` | `read_line` and `read_data` over a read buffer and a socket that yields arbitrary chunks |
| `DataFraming.dfy` | `read_data` against the byte-level meaning, and exactly when chunks can matter, for a given buffer capacity |
| `Recipients.dfy` | plus tags, recipient validation, catch-all creation |
| `Session.dfy`, `SessionRun.dfy` | the command machine, and the session object that runs it |
| `SessionSafety.dfy` | what every run of commands keeps, records and answers; where a saved copy comes from; when chunks do not matter |
| `SessionDelivery.dfy` | whole sessions over a connection: their log traced to their commands and bytes; when they end; STARTTLS; mail end to end |
| `Mail.dfy`, `Quotas.dfy` | newest-first order; the memory store's eviction |
| `SqlQuotas.dfy`, `OnlineEviction.dfy` | the SQL deletes as set expressions; eviction over whole histories |
| `Listing.dfy` | keyset listing, in memory and in SQL |
| `RateLimiting.dfy` | the connection limiter and its throttled rejection reports |
| `SseLimits.dfy` | two-resource stream caps under every interleaving |
| `Challenges.dfy`, `AppAttest.dfy` | single-use challenges; attestation and refresh as a concurrent protocol |
| `CustomDomains.dfy` | custom-domain status, grace window and hourly re-check |
| `Rfc5987.dfy` | percent-encoding of attachment names |
| `Bytes.dfy`, `Clock.dfy` | bytes, peers, clock readings |

How the world enters the model:

- A connection is the bytes in the reader's buffer and the sequence of nonempty chunks
  that the socket will yield, one per buffer refill; a claim for all connections is a claim
  for all ways the network may cut the stream. Where the size of a read matters, it is
  bounded by the capacity of the buffer, which the session leaves at the 8 KiB default.
- Every answer a session gets from outside (store lookups at each of their own instants,
  disk headroom, how many saves succeed) is a parameter. The TLS handshake is an arbitrary
  function from what the raw socket holds to failure or a new socket; the read buffer is
  dropped before it. A session may end after any number of commands, which covers
  time-outs and broken connections.
- Command parsing is an arbitrary function of the stripped line. Signature, certificate
  and DNS verdicts are arbitrary booleans.
- Concurrent code (stream slots, attestation) is a machine whose atomic steps are the
  lock-protected or store-level operations of the source, in any order.
- Times are integers and never come from a clock. Where a claim needs them ordered, it
  says so.

Where the code and its own comments disagree, the model follows the code:

- The message just saved is documented as never dropped (src/store/mod.rs:37-38). The
  count cap does drop it when its `(received_at, id)` ranks too low;
  `Quotas.NewMessageSurvivesExactly` gives the exact condition and
  `Quotas.NewMessageCanBeDropped` an instance.
- The limit on outstanding challenges is called a hard cap (src/attest.rs:30-33). It is
  exceeded exactly as `Challenges.CapExceededExactly` says, without bound
  (`Challenges.FloodIsUnbounded`).
- Draining an oversize message is said to keep the protocol in sync
  (src/smtp/session.rs:375-377). With a buffer of B bytes it does so for every delivery of
  the stream if and only if no line before the terminator has, k bytes in, what reads as a
  terminator, where j(L + 1) <= k <= j(L + B) for some j >= 1 and L is the line limit
  (`DataFraming.FramingExact`, `DataWire.FalseEndInExactly`). `DataWire.FalseEndInstance`
  gives such a stream for every limit and capacity.
- The memory store is said to mirror the SQL stores (src/store/memory.rs:52-54). The two
  agree on all mailboxes if and only if the byte cap is below 2^63
  (`SqlQuotas.StoresAgreeExactly`).
- The assertion counter is said to strictly increase (src/api/client.rs:110-112). It does
  while the device row lives. `AppAttest.CountersRestart` gives runs in which it goes down
  across a pruning of the row, and `AppAttest.IncreaseExactly` says when the promise holds
  of a reachable state: if and only if the device has a row whose counter is no lower than
  the one accepted.

## Model

| member | source | states |
|---|---|---|
| SmtpReader.ReadLine | src/smtp/session.rs:472-518 | the loop computes the line-reading function: status, collected line, and what is left in the buffer and in the socket |
| SmtpReader.LineFromMeaning | src/smtp/session.rs:472-518 | for every chunking: the first line is returned whole with exactly the rest unread if it fits, end of stream is reported exactly on the empty stream, and an over-long line stops somewhere past the limit and within that line |
| SmtpReader.LineFromCapped | src/smtp/session.rs:482-517 | with reads of at most B bytes, an over-long line stops within B bytes past the limit |
| SmtpReader.ReadData | src/smtp/session.rs:378-421 | the loop computes the DATA-reading function, including drained oversize input and the connection left over |
| DataWire.TerminatorForms | src/smtp/session.rs:577-591 | a line strips to a dot if and only if it is a dot alone, with LF, with CR, or with CRLF |
| DataWire.StripEolExactly | src/smtp/session.rs:582-591 | exactly one line ending is stripped: CRLF, LF or a bare CR; a line without one is left alone |
| DataWire.LineContent | src/smtp/session.rs:403-416 | a content line contributes itself to the payload, less exactly one leading dot if it has any |
| DataWire.StopsExactly | src/smtp/session.rs:482-517 | reads of at most B bytes can stop k bytes into an over-long line if and only if j(L + 1) <= k <= j(L + B) for some j >= 1 |
| DataWire.FalseEndInExactly | src/smtp/session.rs:386-395 | a line has a false end if and only if what reads as a terminator starts in one of those windows, L being the message limit plus 4 |
| DataWire.FalseEndInstance | src/smtp/session.rs:386-395 | for every message limit and capacity, limit + 5 bytes before a dot and CRLF have a false end |
| DataFraming.CompleteExactly | src/smtp/session.rs:378-421 | for every stream and chunking, Complete is returned if and only if a terminator exists and the unstuffed lines before the first one fit; then they are the data, and everything after the terminator is unread |
| DataFraming.FramingExact | src/smtp/session.rs:386-395 | with a buffer of B bytes, every delivery gives the verdict and unread bytes that the byte stream calls for, if and only if no line before the terminator has a false end |
| DataFraming.FramingExactUncapped | src/smtp/session.rs:386-395 | with reads of any size, if and only if no over-long line before the terminator has a tail, past the limit, that reads as a terminator |
| DataFraming.MisreadExists | src/smtp/session.rs:491-495 | for every capacity and every stream with a false end there is a delivery within that capacity that is misread |
| DataWire.StuffedSection | src/smtp/session.rs:396-416 | unstuffing a stuffed body followed by the end mark gives the body, with exactly the further bytes after it |
| DataFraming.DotTransparency | src/smtp/session.rs:396-416 | a dot-stuffed body of whole lines that fits is received as it was for every chunking, with exactly the bytes after the end mark unread |
| Recipients.TagIsStripped | src/smtp/session.rs:566-574 | base+tag@domain becomes base@domain, whatever the tag holds |
| Recipients.UntaggedIsKept | src/smtp/session.rs:566-574 | an address without a plus, or with a leading one, is left as it is |
| Recipients.NoAtIsKept | src/smtp/session.rs:567-569 | an address without @ is left as it is |
| Recipients.StripKeepsDomain | src/smtp/session.rs:566-574 | stripping the plus tag keeps the domain, leaves a prefix of the local part, never empties it, and leaves a plus sign only if it led |
| Recipients.StripIdempotent | src/smtp/session.rs:566-574 | stripping twice is stripping once |
| Recipients.LowerExactly | src/smtp/session.rs:260-260 | lower-casing moves ASCII capitals to their small letters, leaves everything else, and once is enough |
| Session.TrimExactly | src/smtp/session.rs:260-260 | trimming takes the whitespace at both ends, all of it and nothing else |
| Recipients.VerdictExactly | src/smtp/session.rs:278-373 | which of the four verdicts every address with @ gets, by domain, mailbox, catch-all and failed store calls, each if and only if |
| Recipients.NoAtIsRefused | src/smtp/session.rs:279-281 | an address without @ is refused as not ours |
| Recipients.AcceptedIsDeliverable | src/smtp/session.rs:278-321 | an accepted recipient is the stripped address on its original domain, which is configured or verified, and is active at the store call that decided (for a mailbox just created: if and only if the default lifetime is positive) |
| Recipients.CreatedExactly | src/smtp/session.rs:326-373 | SMTP creates a mailbox if and only if catch-all applies; it is ownerless, on the configured domain addressed, under a non-reserved local part, and nothing else in the store changes |
| SessionRun.SmtpSession.ResetTx | src/smtp/session.rs:227-230 | sender and recipients are cleared and nothing else |
| SessionRun.SmtpSession.HandleRcpt | src/smtp/session.rs:248-276 | new fields, mailbox created and reply are those of the recipient rule |
| SessionRun.SmtpSession.StoreMessage | src/smtp/session.rs:425-442 | copies are saved for a prefix of the recipients in order, all of them if and only if no save fails |
| SessionRun.SmtpSession.HandleData | src/smtp/session.rs:128-172 | replies, copies, reset and bytes consumed are those of the DATA rule |
| SessionRun.SmtpSession.HandleStartTls | src/smtp/session.rs:180-210 | fields and reply are those of the STARTTLS rule; the handshake gets the raw socket without the buffer, and its outcome is read from next |
| SessionRun.SmtpSession.Handle | src/smtp/session.rs:99-220 | each command changes fields, log and stream as the command rule says |
| SessionRun.SmtpSession.Run | src/smtp/session.rs:76-225 | a session emits the greeting and then exactly the events of the transcript of its input |
| SessionSafety.AlwaysSound | src/smtp/session.rs:99-276 | throughout every run a sender implies a greeting, recipients imply a sender, recipients are distinct and within the limit, and TLS is flagged exactly when the stream is TLS |
| SessionSafety.GreetingExactly | src/smtp/session.rs:104-113 | in every run, a greeting is on record if and only if it was the last one given and no stream swap followed |
| SessionSafety.SenderExactly | src/smtp/session.rs:114-124 | in every run, a sender is on record if and only if its MAIL was accepted and nothing has reset it since |
| SessionSafety.RcptExactly | src/smtp/session.rs:253-275 | in every run, a recipient is on record if and only if a RCPT resolving to it was accepted and nothing has reset it since |
| SessionSafety.TlsExactly | src/smtp/session.rs:180-201 | in every run, TLS is active if and only if some turn before swapped the stream |
| SessionSafety.AnsweredExactly | src/smtp/session.rs:99-276 | in every run, the reply codes to each command are those that the greeting, sender, recipients and TLS swap before it call for |
| SessionSafety.SavedInOrder | src/smtp/session.rs:425-442 | a message read whole is saved for the recipients in order, as far as the saves succeed, and answered 250 if and only if all did |
| SessionDelivery.SessionEndsExactly | src/smtp/session.rs:82-221 | while the connection lives, a command is the last if and only if it is QUIT, DATA broken off or a failed handshake, or what it leaves is nothing or begins with a line over 4096 bytes |
| SessionDelivery.NoneServed | src/smtp/session.rs:83-95 | nothing is served if and only if the stream is at its end or its first line is over 4096 bytes, which is answered 500 |
| SessionDelivery.MailIsDelivered | src/smtp/session.rs:76-225 | from a fresh session, the bytes of EHLO, MAIL, RCPT to an active mailbox, DATA and a stuffed body, in any reads, save that body for that mailbox from that sender, with every command answered and exactly the bytes after it left |
| SessionSafety.CopyIsAuthorised | src/smtp/session.rs:128-164 | for every sequence of turns: a copy is saved for r only in a DATA phase read whole, after a greeting on the same stream, then the accepted sender it carries, then an accepted recipient resolving to r, with no reset since the sender |
| SessionDelivery.SavedIsAuthorised | src/smtp/session.rs:76-225 | every copy in the output of a session, over every connection: its commands are the first lines of what was left to read at each point, they authorise the copy as above, its recipient was active at the store call that accepted it, and its data is the payload of the bytes that followed the DATA line |
| SessionDelivery.CreatedIsLogged | src/smtp/session.rs:253-360 | a turn creates a mailbox if and only if it is a RCPT with a sender on record, room for a recipient, and catch-all applying; it is then the one catch-all creates, with the default lifetime |
| SessionDelivery.CreatedIsProper | src/smtp/session.rs:326-373 | every mailbox created in a session is ownerless, on a configured domain, under a local part neither reserved nor tagged |
| SessionDelivery.HandleConnection | src/smtp/session.rs:33-43 | the log of a connection handled from accept to close is the greeting and the output, and both of the above hold of all of it |
| SessionSafety.AcceptedMeansAllSaved | src/smtp/session.rs:142-169 | DATA is answered 250 if and only if the message was read whole and a copy saved for every recipient; an oversize or broken-off message saves nothing |
| SessionSafety.AlreadyTlsUnreachable | src/smtp/session.rs:188-194 | STARTTLS on a TLS stream is always answered 503, so the already-TLS branch is never taken |
| SessionDelivery.TlsDiscardsBufferedPlaintext | src/smtp/session.rs:186-201 | any two sessions that complete STARTTLS with the same raw socket and the same world from there on continue command for command alike, whatever was said in plaintext and whatever was still buffered (section 4.2 of RFC 3207) |
| SessionDelivery.TlsReadsAcceptor | src/smtp/session.rs:186-201 | in every session, each command of a TLS stream is the first line of a suffix of what the handshake made of the raw socket as the STARTTLS line left it |
| SessionDelivery.PlainReadsConnection | src/smtp/session.rs:77-98 | in every session, each command of a plaintext stream is the first line of a suffix of the connection it began with |
| SessionDelivery.AtMostOneSwap | src/smtp/session.rs:180-210 | no session swaps its stream twice |
| SessionSafety.ChunksDoNotMatter | src/smtp/session.rs:82-221 | a session whose DATA sections have no false end, and whose handshake does not hang on how much plaintext was buffered, does the same on every delivery of its bytes |
| SessionSafety.BodyIsDelivered | src/smtp/session.rs:128-164 | end to end: a stuffed body sent after DATA is saved as it was for each recipient in order, the transaction is reset, and the session goes on with exactly the bytes after the end mark |
| Quotas.MarkOverCount | src/store/memory.rs:76-81 | marks exactly the ids ranked at or past the count cap |
| Quotas.MarkOverBytes | src/store/memory.rs:82-90 | marks exactly the ids whose saturating running total exceeds the byte cap, except the new one |
| Quotas.MemoryStore.EnforceQuotas | src/store/memory.rs:55-94 | the store keeps, in order, the messages not marked in the newest-first snapshot |
| Quotas.MemoryStore.SaveMessage | src/store/memory.rs:201-208 | the message is appended and the quotas enforced on its mailbox |
| Quotas.EnforcedExactly | src/store/memory.rs:55-94 | a message stays if and only if its rank is within the count cap and the bytes up to it are within the byte cap or it is the new one; other mailboxes lose nothing |
| Quotas.NewMessageSurvivesExactly | src/store/memory.rs:76-88 | the message just saved survives if and only if its rank is within the count cap |
| Quotas.SizelessStay | src/store/memory.rs:82-90 | without a count cap, messages of no or negative recorded size all stay, whatever the byte cap |
| Quotas.NewMessageCanBeDropped | src/store/memory.rs:77-81 | an instance: saved with an earlier time than the one message kept, it is dropped |
| SqlQuotas.StoresAgree | src/store/sqlite.rs:395-427 | the SQL store's count delete followed by its byte delete leaves the same messages as the memory store's single pass, for both caps and any rank of the new message |
| SqlQuotas.HugeCapDisagrees | src/store/sqlite.rs:423-423 | for every byte cap of 2^63 or more there is a mailbox on which the stores differ; unless the count cap is one, saving a newest message beside another is enough |
| SqlQuotas.StoresAgreeExactly | src/store/sqlite.rs:408-427 | the stores agree on every mailbox if and only if the byte cap is below 2^63 |
| OnlineEviction.SaveKeepsLongestRun | src/store/memory.rs:201-208 | saving a newest message leaves its mailbox the longest newest-first run of what it held that fits |
| OnlineEviction.SaveLeavesOthers | src/store/memory.rs:201-208 | saving leaves every other mailbox's listing as it was |
| OnlineEviction.OnlineIsOffline | src/store/memory.rs:201-208 | after any chronological history of saves each mailbox holds exactly the longest newest-first run of its whole history fitting both caps, or its newest message alone |
| Listing.PageAtCursor | src/store/memory.rs:211-247 | a cursor at entry i of the full listing with limit k returns the slice of its first min(i, k) entries, all i of them when k is zero |
| Listing.PageFromNewest | src/store/memory.rs:218-225 | without a cursor, or with a vanished one, the slice of the first k entries of the full listing is returned, all when k is zero |
| Mail.ListedNewestFirst | src/store/memory.rs:242-242 | the full listing holds exactly the mailbox's messages, later ones first, and of two at one instant the larger id first |
| Listing.SqlPageExactly | src/store/sqlite.rs:455-474 | the keyset query, ordered and cut to its first rows by LIMIT, has exactly one result, the memory store's page |
| Listing.PageIgnoresStorageOrder | src/store/memory.rs:226-245 | pages do not depend on the order messages are stored in |
| RateLimiting.RateLimiter.CheckAt | src/smtp/mod.rs:118-134 | table and decision are those of the admission function |
| RateLimiting.RateLimiter.NoteRejectionAt | src/smtp/mod.rs:147-179 | table and report are those of the rejection function |
| RateLimiting.DecisionIsFullHistory | src/smtp/mod.rs:118-134 | for nondecreasing times an attempt at now is let in if and only if fewer than max hits t of its IP ever let in have now - t < window; no pruning or trim changes a decision |
| RateLimiting.AllowedHitsSpread | src/smtp/mod.rs:126-133 | any max + 1 consecutive hits let in from one IP span at least the window |
| RateLimiting.RejectionsAreAccounted | src/smtp/mod.rs:147-179 | reported counts plus the pending count plus what trims dropped equal all rejections of the IP |
| RateLimiting.ReportsSpread | src/smtp/mod.rs:154-176 | successive reports for one IP are at least the window apart, even across table trims |
| RateLimiting.ReportedExactly | src/smtp/mod.rs:147-179 | a rejection is reported if and only if the last report for its IP is at least a window old or there is none, and a report leaves nothing pending |
| RateLimiting.NothingDropped | src/smtp/mod.rs:154-156 | no unreported rejection is thrown away while the table holds at most 10,000 entries |
| SseLimits.RuntimeLimits.EnterPerIp | src/api/limits.rs:61-72 | per-IP map and verdict are those of the acquire half step |
| SseLimits.RuntimeLimits.LeavePerIp | src/api/limits.rs:168-180 | the per-IP map is that of the release half step |
| SseLimits.RuntimeLimits.TryAcquire | src/api/limits.rs:55-79 | undisturbed, an acquire succeeds if and only if both caps have room, and a refusal leaves both counters as they were |
| SseLimits.LedgersMatch | src/api/limits.rs:55-79 | under every interleaving, permits in use equal the requests under way, and each per-IP entry equals that IP's undropped guards, is never zero and never above the cap |
| SseLimits.CapsHold | src/api/limits.rs:55-79 | live streams never exceed either cap |
| SseLimits.RefusedExactly | src/api/limits.rs:63-67 | the per-IP step refuses if and only if the IP has exactly the cap of live streams |
| SseLimits.PermittedExactly | src/api/limits.rs:56-59 | a request gets its permit if and only if fewer than the global cap are under way |
| SseLimits.PhasesInOrder | src/api/limits.rs:55-79 | from its permit on, a request moves one phase at a time until it is gone |
| SseLimits.ReleaseNeverSaturates | src/api/limits.rs:172-173 | a dropping guard always finds a positive count, so the saturating subtraction is exact |
| SseLimits.CountersAreDetermined | src/api/limits.rs:168-180 | two histories that leave the same requests under way leave the same counters, so refused and finished requests leave no trace |
| SseLimits.IdleMeansEmpty | src/api/limits.rs:168-180 | with no request under way the limiter is as new |
| Challenges.ChallengeStore.Issue | src/attest.rs:65-83 | the table after shedding, if needed, and insertion |
| Challenges.ChallengeStore.Consume | src/attest.rs:86-91 | the challenge is gone, and the verdict is that it was there and young enough |
| Challenges.RedeemExactly | src/attest.rs:65-91 | in ordered time, a challenge is redeemed if and only if it was issued less than the TTL ago, neither consumed nor issued again since, and no issue since that found the table full of unexpired challenges found it half the TTL old |
| Challenges.RedeemedAtMostOncePerIssue | src/attest.rs:85-91 | a challenge is never redeemed more often than it was issued |
| Challenges.CapExceededExactly | src/attest.rs:71-81 | an issue leaves more than 100,000 outstanding if and only if that many younger than half the TTL were outstanding before; after shedding those are all that is left, plus the new one |
| Challenges.FloodIsUnbounded | src/attest.rs:71-81 | n simultaneous issues are all outstanding, for every n |
| AppAttest.DeviceTable.Upsert | src/store/memory.rs:514-533 | a known key keeps its counter and public key, an unknown one starts at zero |
| AppAttest.DeviceTable.AdvanceCounter | src/store/memory.rs:545-560 | only a strictly larger counter of an existing row is written, and success says so |
| AppAttest.DeviceTable.Prune | src/store/memory.rs:562-569 | exactly the rows idle since before the cutoff go, and their number is returned |
| AppAttest.ClientApi.Attest | src/api/client.rs:65-96 | an undisturbed attestation has the effect of its protocol steps in order, and is granted if and only if the key id has 1 to 64 characters and challenge and attestation are good |
| AppAttest.ClientApi.Assert | src/api/client.rs:113-163 | an undisturbed refresh has the effect of its protocol steps in order, and is granted if and only if key id, challenge and signature are good, the device is registered, and the claimed counter is above the stored one and below 2^32, which it then is |
| AppAttest.CounterNeverDrops | src/store/memory.rs:514-560 | no step lowers a living row's counter or changes its key; re-attestation leaves the counter as it is |
| AppAttest.AcceptedCountersIncrease | src/api/client.rs:147-160 | under every interleaving of requests, pruning and issuing, the counters accepted for a device strictly increase from one deletion of its row to the next |
| AppAttest.ChallengesAreSingleUse | src/api/client.rs:187-196 | under every interleaving, no more requests get past the challenge step on one challenge than times it was issued |
| AppAttest.AcceptedWasEarned | src/api/client.rs:113-163 | under every interleaving, each counter accepted for a key was earned by one request that began on that key with a good challenge, read its row, and had a signature verified over that counter, above the one read |
| AppAttest.RowsAreRegistered | src/api/client.rs:65-96 | under every interleaving, each device row comes from one request that began on its key with a good challenge and a genuine attestation, holds the public key of that attestation, and has lived since |
| AppAttest.PrunedExactly | src/store/memory.rs:562-569 | pruning deletes exactly the rows last seen before the cutoff and leaves the others as they are |
| AppAttest.CountersRestart | src/store/memory.rs:562-569 | for any key and any two counters in range there is a run from the start that accepts the first, prunes the row, and accepts the second |
| AppAttest.IncreaseExactly | src/api/client.rs:110-160 | in every reachable state: all counters still acceptable without deleting the row exceed one accepted before, if and only if the device has a row and its counter is no lower |
| CustomDomains.DomainStore.RecordCheck | src/store/memory.rs:454-471 | the check is written to an existing claim and to nothing else |
| CustomDomains.DomainStore.CheckAndRecord | src/custom_domains.rs:323-344 | the status due from the snapshot is returned and written to the claim of that name if there is one; if it is still as read, it becomes the record after one check |
| CustomDomains.DomainStore.Scan | src/custom_domains.rs:349-369 | one tick checks exactly the claims due at its instant, each once and at its own time, and leaves the others |
| CustomDomains.StatusInClosedForm | src/custom_domains.rs:299-319 | over every history of checks: Pending if and only if none passed, else Verified if and only if the last check is within 48 h of the latest pass, which verified_at records, else Failed |
| CustomDomains.NeverFailedEarly | src/custom_domains.rs:310-317 | no failing checks, however many, end a verified domain within 48 h of its last pass |
| CustomDomains.DueExactly | src/store/memory.rs:473-491 | the scan picks a claim if and only if some check of it passed and the last one is at least 24 h old |
| CustomDomains.NotRecheckedEarly | src/custom_domains.rs:346-369 | ticks less than 24 h after its last check leave a claim alone |
| CustomDomains.FailedBy73Hours | src/custom_domains.rs:346-369 | with ticks at most an hour apart and every check failing, a verified domain is failed for good by 73 h after its last pass, whatever manual checks occur |
| CustomDomains.HealsBy25Hours | src/custom_domains.rs:346-369 | with ticks at most an hour apart and DNS right again, a once-verified claim is verified within 25 h |
| CustomDomains.PendingIsNotScanned | src/store/memory.rs:473-491 | ticks alone never change a claim that was never verified |
| Rfc5987.EncodeName | src/api/messages.rs:216-234 | the loop computes the encoding |
| Rfc5987.RoundTrip | src/api/messages.rs:216-234 | percent-decoding undoes the encoding of every byte string |
| Rfc5987.EncodeInjective | src/api/messages.rs:216-234 | different names encode differently |
| Rfc5987.EncodeByteExactly | src/api/messages.rs:219-232 | a byte stands for itself if and only if the grammar lists it as attr-char, else a percent sign and its two upper-case hexadecimal digits stand for it |
| Rfc5987.EncodedAlphabet | src/api/messages.rs:219-232 | the output is attr-char bytes and percent-hex-hex triples only |
| Rfc5987.EncodedLength | src/api/messages.rs:218-232 | the length is n plus two per escaped byte, between n and 3n |

## Left out

- Sockets, scheduling, the TLS handshake itself, HTTP routing, rate-limit layers: I/O and library behaviour.
- SessionRun.SmtpSession.Run: I/O errors and time-outs end a session, which the model allows after any command but not in the middle of one.
- Saturation of the line limit near the largest machine integer: buffers cannot grow that long, so limits are unbounded integers.
- MIME parsing, event publishing and the stored form of a message: a saved copy is the raw data with its sender and recipient.
- Command parsing (src/smtp/commands.rs): the session is proved for every parser.
- Recipient normalisation trims ASCII whitespace only; the source trims Unicode whitespace.
- Overflow of the SQL window sum: it needs more than 2^32 messages in one mailbox.
- Message ids are assumed unique, as random UUIDs are. Explicit deletes, mark-seen and expiry purges of messages touch neither quotas nor order and are not modelled.
- Listings return whole messages; the projection to summaries and the attachment flag are left out.
- CustomDomains.DomainStore.Scan: nothing else writes between the read of the due claims and their checks, and store errors are left out.
- SseLimits.RuntimeLimits.TryAcquire: acquires and releases that overlap are covered by the step machine and not by this method.
- AppAttest.ClientApi.Attest: nothing interleaves, which the step machine covers, and the token is not minted.
- AppAttest.ClientApi.Assert: nothing interleaves, which the step machine covers, and the token is not minted.
- The per-IP daily quotas and the verification throttle of src/api/limits.rs: single counters without interaction.
- The cap on active mailboxes per device: counting and creating are separate steps, so there is no invariant to prove.
- src/otp.rs, src/store/postgres.rs, src/config.rs, push delivery, token minting: library semantics, the same SQL shape, or plumbing.
