# certrelay: pull replication, storage and client decisions

This project models the replication engine of a certificate relay and the decision procedures of its
clients, and proves what they are meant to guarantee.

A relay stores one row per handle (`alice@bitcoin`, or a root such as `@bitcoin`) in a table whose rows carry
a number from a write counter that only goes up. Other relays pull: they ask for the newest number, then fetch
pages of rows in number order, verify everything themselves, and remember how far they got in a watermark per
peer. Around this sit an update rule that decides which verified records replace stored ones, storage
accounting kept by triggers, a retention sweep under a disk budget, and a table of known peers. Clients merge
trust anchors from three sources, count votes on anchor roots, and rank relays by how fresh their answers are.

## How it is organised

| file | what is in it |
|---|---|
| `Names`, `Sets`, `Totals`, `Tables` | handles and spaces, set sizes and sums over maps, the `handles` table and its order |
| `Pages`, `Wire` | what one page of `GET /sync` holds, and how large it is as it travels |
| `Accounting`, `UpdateRule`, `StoreRuns`, `Backfill` | triggers and totals, the bulk update, whole runs of both, the two migrations |
| `Acceptance` | what a bulk update accepts and every column of what it writes, in the records' own fields |
| `Store` | `SqliteStore`: every operation in place, proved against the functions above |
| `Puller`, `Convergence`, `SyncLoop` | one sync round, whether repeated rounds catch up, the loop of a round and the poke cooldown |
| `Ingest`, `Handler` | one page's ingest, a message's way into the store |
| `Replication`, `Refinement` | peer and puller as one state machine: writes between any two steps, any number of overlapping rounds; a round of the page loop is a run of it |
| `Peers`, `PeerEntries` | the peer table, and what each call does to each of its entries |
| `Eviction`, `Retention` | what a sweep may do, the sweep itself |
| `Anchors`, `Quorum` | the client's anchor merge and votes |
| `Hints`, `Ranking`, `Reversal` | freshness of a relay's answer, what sorting by it relies on, when the order reverses |

The pattern is the same throughout. A function or relation says what an operation does to plain values; a
method of a class, with the loops of the original, is proved to do exactly that; and lemmas prove what follows,
over all inputs and whole runs. What an operation decides or writes is also stated without those functions, in the
fields of its inputs and with the program's own numbers: `Acceptance`, `PeerEntries`, and the `...Means` lemmas. Libraries appear as parameters: `UpdateRule.Codec` holds serialisation, hashing
and zone comparison, and lemmas that need more than that decoding inverts encoding say so.

Hash maps are walked in no particular order, and where a program picks a maximum among equals any of them may be
picked: the results hold for every order and every pick.

## Where the code and its comments differ

- The comment on `backfill_sync` (relay/src/store.rs:263) calls it a single transaction. It is one transaction
  per chunk of 1000 rows, and that is what is modelled; `Backfill.CrashResumable` is why it does not matter.
- The comment on `record_sync_failure` (relay/src/peer.rs:368-369) says a verified refresh resets the counter. It
  does not: only a promotion or a successful sync does. `Peers.RefreshesDoNotReset` states it.
- `flatten_handles` (fabric/rust/src/lib.rs:204-215) never enters a handle whose numbers are all 0, so two answers
  that differ only in such a handle rank equal there; `Hints.FoldedKeepsHighest` has the exact rule.
- The score `count * 1_000_000 + height` of the JavaScript client stands for "more votes, then greater height". It
  does so exactly while heights are below one million: `Quorum.ScoreFaithfulIff`, `Quorum.ClientsDisagree`.
- `Ord` for hint responses is not a total order, although relays are sorted by it (fabric/rust/src/client.rs:1185):
  `Hints.RankingCycles` gives three responses in a circle. `Ranking.ComparableTransitive` and
  `Ranking.RelaysRankTransitively` say when it can be relied on, and `Ranking.ConsistentIffFresher` how far that goes.
- `Hints.RepeatedNameBreaksReversal` gives two responses that each rank above the other when a name is repeated;
  `Reversal.ReversesIff` says exactly which responses reverse. Responses built by `hints` never repeat a name.
- The comment on the page limit of a configured relay (relay/src/settings.rs:216-218) says that a raised message size
  cannot wedge pullers. It can from about twice the page bytes on: `Wire.NeverWedgesIff` has the exact size.
- Rounds against one peer do not always catch up: a page with more than 33 failing spaces is refused in every round
  and is never got past (`Convergence.RoundsStick`). `Convergence.ConvergesIffGentle` is the exact condition.
- `max_unverified` bounds the unverified table only while no demotion overflows it: `Peers.WithinIffRoom`.
- Two loops may pull from one peer at once, and then the watermark can go back: `Replication.RisesIffOneRound`.
- With a repeated handle in one batch, the comparison with the stored zone is not repeated for the second
  record: `UpdateRule.LastRecordWins`, `Acceptance.LastWinnerDecides`.
- When no source has an anchor, the JavaScript client keeps the verifier it had (`Anchors.Fabric.RebuildVeritas`),
  while the Rust client builds one from the empty list.

## Model

| member | source | states |
|---|---|---|
| `Names.FromMarkerIsSuffix` | fabric/rust/src/lib.rs:336-342 | The space name starts at the first marker of the handle: everything before it holds none. |
| `Names.SpaceNameIsRoot` | fabric/rust/src/lib.rs:336-342 | The space of any handle is itself a root handle, so looking a root up by space name looks up a root row. |
| `Names.RootShape` | fabric/rust/src/lib.rs:336-342 | A handle is its own space exactly when it begins with a marker or contains none. |
| `Tables.AfterIsOrdered` | relay/src/store.rs:865-884 | The page query returns each row past the cursor once, in write order, and no other row. |
| `Tables.AfterResumes` | relay/src/store.rs:865-884 | Asking again from the number of the k-th result continues exactly where the first k results ended. |
| `Pages.PageIsRootClosed` | relay/src/store.rs:898-992 | Each sub-handle shipped whose root row lies past the request cursor ships with that root, with the certificate, zone and numbers stored for it, whatever the trim loop dropped. |
| `Pages.PageHasNoRepeats` | relay/src/store.rs:898-992 | No handle ships twice, and every record shipped has a row past the cursor stored under its handle with the same certificate, zone, epoch and numbers. |
| `Pages.PageIsCapped` | relay/src/store.rs:942-975 | The payload of a page, appended roots included, is at most twice `max_bytes`, or twice the largest row if that is larger, and only a page with a single main row can pass twice `max_bytes`. |
| `Pages.PageMakesProgress` | relay/src/store.rs:886-896 | For a limit of at least one: the page is empty exactly when no row lies past the cursor, and otherwise its next cursor is the number of a shipped row past it. |
| `Pages.NoRowsNoProgress` | relay/src/store.rs:865-896 | With a row limit of 0 the page is always empty, so progress needs the limit that the route enforces. |
| `Pages.PageCoversItsRange` | relay/src/store.rs:977-992 | Every row between the request cursor and the next cursor is on the page, with its certificate, zone and numbers: rows popped by the trim lie past the next cursor. |
| `Pages.PageAddsOnlyRoots` | relay/src/store.rs:898-992 | Whatever a page ships past its next cursor is a root that a sub-handle on the page belongs to. |
| `Pages.PageIsFull` | relay/src/store.rs:886-975 | A page stops short of its row limit, with rows left, only when its main rows exceed the byte limit or the next row with its late roots would pass twice that limit; the rows before its last are within the limit. |
| `Pages.PopRehomes` | relay/src/store.rs:964-975 | One pop of the trim loop keeps the collected roots complete: a popped root still needed by an earlier sub-handle is re-homed. |
| `Pages.CollectedAreLate` | relay/src/store.rs:977-991 | The collected roots that a surviving sub-handle needs are exactly the roots past the last main row. |
| `Wire.PageRows` | relay/src/store.rs:898-992 | A page has at most twice as many records as its row limit: no more roots are appended than there are main rows. |
| `Wire.BodyBound` | relay/src/http.rs:1277-1292 | The encoded body of a page is at most twice the byte limit or the largest row, plus 63 bytes and twice the handle for each main row, plus 29, for rows, handles and row limits of any size, appended roots included. |
| `Wire.BodyFitsPuller` | relay/src/sync.rs:72-75 | Where no row is larger than a message, a page fits its pullers as soon as what its main rows add is within the message size, and for a single main row also message size plus that within twice the byte limit. |
| `Wire.NeverWedgesIff` | relay/src/settings.rs:216-219 | For message sizes from the default up, and handles of up to 230 bytes: every page the route serves is one that pullers take, if and only if the message size is at most twice the byte limit less 92 bytes and twice the longest handle. |
| `Wire.RaisedLimitWedges` | relay/src/settings.rs:216-219 | Beyond that a sub-handle and its root, each as large as a message, travel as one page that a puller with the same message size refuses. |
| `Accounting.PutKeepsRecount` | relay/src/store.rs:89-123 | A bulk replace keeps totals and every (space, epoch) count equal to a recount, displaced row and preserved certificate included. |
| `Accounting.DropAllKeepsRecount` | relay/src/store.rs:110-123 | A bulk delete keeps totals and every count equal to a recount. |
| `Accounting.DropAllRemovesListed` | relay/src/store.rs:635-688 | A bulk delete removes exactly the listed rows, leaves the counter alone and forgets no epoch of a space. |
| `Accounting.RecountMeans` | relay/src/store.rs:85-123 | A recount in the rows' own columns: the bytes of all certificates and zones, how many rows have a space and an epoch, and every row's space and epoch on record. |
| `Accounting.EpochsAreSeen` | relay/src/store.rs:591-599 | The number of epochs read for a space is the number of different epoch heights on record for it. |
| `Accounting.BucketsNeverNegative` | relay/src/store.rs:93-123 | No (space, epoch) count is ever negative. |
| `Accounting.UsageIsRowCount` | relay/src/store.rs:591-599 | The usage read by summing the counts of a space is the number of rows the space has. |
| `UpdateRule.EntriesStem` | relay/src/store.rs:376-462 | Everything the filter keeps comes from a record of the batch by the filter's own decision about it. |
| `UpdateRule.LastEntryWrites` | relay/src/store.rs:486-529 | The last entry for a handle decides its row; a preserved certificate is the one stored before the batch. |
| `UpdateRule.LastRecordWins` | relay/src/store.rs:365-462 | Records are compared with the table before the batch: of several kept records for one handle the last one's row stands, whatever came before it in the batch. |
| `Acceptance.RewrittenIff` | relay/src/store.rs:376-462 | A batch rewrites a handle's row if and only if some record of it for that handle has both numbers at most now + 21600 and the handle is new, or `is_better_than` gives true, or the key is equal, the anchor strictly higher and the finality no lower; otherwise the row is untouched. |
| `Acceptance.LastWinnerDecides` | relay/src/store.rs:376-529 | The last such record decides every column: its own space, epoch, delegate number and time; its zone, or with the owner's stored records when the key is equal and they are newer, with the matching number and hash; its certificate, or the stored one for a receipt-less root certificate under an equal commitment root. |
| `Acceptance.StoredAreNumbered` | relay/src/store.rs:475-538 | The counter grows by the number of rows stored, and the handles reported as stored are exactly those whose rows got new numbers. |
| `StoreRuns.SequenceDiscipline` | relay/src/store.rs:475-529 | Over any run of bulk updates and evictions all numbers stay distinct and within the counter, the counter never goes back, and each version written gets a number above all issued before. |
| `StoreRuns.AccountingRefinesRecount` | relay/src/store.rs:89-123 | In every reachable state totals and counts equal a recount, and a space's number of epochs never goes down. |
| `StoreRuns.RowAfterBatch` | relay/src/store.rs:376-529 | After any batch a row is untouched, or holds what the rule makes of an accepted record: the incoming zone with the incoming anchor and commitment, records merged, its hash and number, and the certificate or the stored one. |
| `StoreRuns.SurvivalIsSerialisation` | relay/src/store.rs:422-443 | Under an unchanged key the owner's records survive an accepted update if and only if no merge was due or the merged zone serialised; the rest of the zone is the incoming one. |
| `StoreRuns.OwnerRecordsSurvive` | relay/src/store.rs:376-462 | Over any run, while a handle stays stored under one key, its records' number never goes down and records never become empty, whatever comparison accepted the updates. |
| `StoreRuns.ColumnsAgreeOverRuns` | relay/src/store.rs:508-525 | Over any run `space`, `offchain_seq` and `zone_hash` describe the zone that is stored, merged or not. |
| `StoreRuns.ReceiptKeptIffRootCert` | relay/src/store.rs:445-458 | Under an unchanged commitment root a stored receipt survives an accepted record if and only if that record's certificate is a root certificate. |
| `StoreRuns.ReceiptsPersist` | relay/src/store.rs:445-529 | Over any run whose stored zones carry one commitment root, a receipt once stored stays stored, whatever receipt-less root certificates arrive. |
| `Backfill.RankInOrder` | relay/src/store.rs:271-278 | The i-th legacy row of the chunk query has rank i in (`updated_at`, `handle`) order. |
| `Backfill.OrderAfterChunk` | relay/src/store.rs:270-299 | After a committed chunk, what is left to do is the rest of the same order. |
| `Backfill.ChunkKeepsOutcome` | relay/src/store.rs:270-299 | Committing a chunk, of any size, does not change where the migration ends. |
| `Backfill.CrashResumable` | relay/src/store.rs:264-304 | After any history of chunk transactions, running the migration ends exactly where one uninterrupted pass would. |
| `Backfill.NothingLeftNothingDone` | relay/src/store.rs:279-281 | Once no legacy row is left, a further run changes nothing. |
| `Backfill.MigratedIsSequenced` | relay/src/store.rs:259-304 | The migrated table has no legacy row, and its numbers are distinct and within the counter. |
| `Backfill.MigratedMeans` | relay/src/store.rs:264-304 | A row that had a number is left alone; one that had none gets the hash of its zone and the counter plus its place in the order of last update, then handle, and nothing else changes. |
| `Backfill.MigratedInOrder` | relay/src/store.rs:271-278 | Of two legacy rows the one updated earlier, or in the same second with the lower handle, gets the lower number. |
| `Backfill.RebuiltRecounts` | relay/src/store.rs:540-572 | The rebuilt accounting equals a recount, both for a database without accounting and for one whose accounting was true. |
| `Store.SqliteStore.Drop` | relay/src/store.rs:118-123 | Deleting a row lowers its (space, epoch) count and the totals by that row. |
| `Store.SqliteStore.Put` | relay/src/store.rs:110-123 | Replacing a row fires the delete trigger for the displaced row, then the insert trigger. |
| `Store.SqliteStore.PrepareAll` | relay/src/store.rs:337-360 | Succeeds exactly when every record serialises and names a space, with one entry per record in order. |
| `Store.SqliteStore.GetZones` | relay/src/store.rs:365-367 | Succeeds exactly when every stored zone of the batch's handles decodes, and returns those zones. |
| `Store.SqliteStore.Filter` | relay/src/store.rs:376-462 | Keeps exactly the entries the rule keeps, each compared with the zone stored before the batch. |
| `Store.SqliteStore.MakeRows` | relay/src/store.rs:486-525 | Computes all rows, preserved certificates included, before any row is written. |
| `Store.SqliteStore.Commit` | relay/src/store.rs:475-529 | Raises the counter by the number of rows and writes them under consecutive numbers; nothing to store changes nothing. |
| `Store.SqliteStore.UpdateHandles` | relay/src/store.rs:319-538 | A bulk update is refused as a whole, changing nothing, exactly when a record names no space or does not serialise or a stored zone does not decode; otherwise it makes the tables what the rule says, stored and skipped add up to the batch, the counter grows by what was stored, and the handles listed are those with new numbers. |
| `Store.SqliteStore.DeleteHandles` | relay/src/store.rs:635-688 | Deletes exactly the listed rows, reports how many, and keeps every store invariant. |
| `Store.SqliteStore.SelectMain` | relay/src/store.rs:886-896 | Reads rows until the byte budget is exceeded, keeping the row that exceeds it. |
| `Store.SqliteStore.Trim` | relay/src/store.rs:942-975 | The pop-and-re-home loop computes the longest prefix that fits the cap with its late roots, never below one row, and ends with those roots collected. |
| `Store.SqliteStore.Assemble` | relay/src/store.rs:977-992 | Ships the main rows in order and then each needed late root once; the next cursor is the last main row's number. |
| `Store.SqliteStore.SyncPage` | relay/src/store.rs:856-993 | Serves a page as specified without any loop, from any valid store, for any cursor, limit and byte limit; each record carries the certificate, zone, epoch and numbers of the row stored past the cursor under its handle. |
| `Store.SqliteStore.SyncSummary` | relay/src/store.rs:1002-1013 | Advertises the counter, not the highest number still stored, once it is above 0, and nothing before. |
| `Store.LastSetIsRead` | relay/src/store.rs:1015-1035 | What is read for a peer is what was last set for that peer, whatever was set for others, and nothing if nothing was. |
| `Store.SqliteStore.SetWatermark` | relay/src/store.rs:1028-1035 | Replaces one peer's watermark and nothing else. |
| `Store.SqliteStore.BackfillSync` | relay/src/store.rs:264-304 | The chunk loop ends with each legacy row numbered by its rank on top of the counter, and no legacy row left. |
| `Store.SqliteStore.NumberRows` | relay/src/store.rs:287-292 | Numbers the rows of a chunk in its order, on top of the counter, and changes no other row. |
| `Store.SqliteStore.CommitChunk` | relay/src/store.rs:283-297 | One chunk transaction numbers the first rows of the order and raises the counter by their number. |
| `Store.SqliteStore.BackfillStorage` | relay/src/store.rs:543-572 | Rebuilds the accounting from a scan when it is empty although rows exist, and is otherwise a no-op. |
| `Store.SqliteStore.Open` | relay/src/store.rs:205-225 | Opening an old database runs both migrations and leaves every store invariant true: no row goes, numbered rows are as they were, and the others keep certificate and zone, with the zone's hash and a number above the old counter. |
| `Store.SqliteStore.StorageTotals` | relay/src/store.rs:579-587 | The totals read in constant time are the number of rows and the bytes of their certificates and zones. |
| `Store.SqliteStore.SpaceUsage` | relay/src/store.rs:591-599 | Reports how many rows a space has and how many epochs it was seen committing, those of its rows among them. |
| `Store.SqliteStore.SpaceUsageAll` | relay/src/store.rs:603-617 | Reports every space that has rows, and only those, with its usage. |
| `Store.SqliteStore.EvictionCandidates` | relay/src/store.rs:623-631 | Lists the oldest-updated handles of a space in order, as many as asked for or all there are, never the root. |
| `Store.UpdateKeepsWell` | relay/src/store.rs:319-538 | A bulk update keeps the accounting, the numbering and the space column true. |
| `Store.MigrationKeepsWell` | relay/src/store.rs:205-225 | Migrating any database that lacks numbers, accounting or both makes every store invariant true. |
| `Store.MigrationMeans` | relay/src/store.rs:205-225 | Both migrations together keep every handle, add the number of legacy rows to the counter, and change of a legacy row only its hash and number. |
| `Puller.BoundedFailures` | relay/src/sync.rs:564-614 | Whatever a peer serves, one round whose ingests keep their budgets pays for at most one failed space more than the round's budget of 32. |
| `Puller.WatermarkJustified` | relay/src/sync.rs:521-604 | Whatever a peer serves, a page whose ingest was aborted or incomplete, under the budget it was given, never moves the watermark: where a round leaves it is accounted for by an unbroken run of pages completed under the budgets their round left them, or by an empty page, and is never past the advertised cursor. |
| `Puller.TakenIsIngested` | relay/src/sync.rs:526-619 | Whatever a round takes was on a page it may request, and that page was ingested to the end under a budget of 1 to 33 failed spaces. |
| `Convergence.RoundsAdvance` | relay/src/sync.rs:521-604 | Against an unchanging store, as long as no page on the way is one a fresh failure budget can leave incomplete, every round comes strictly closer to the advertised cursor, from any watermark, also one above that cursor, and whatever it rejects; a round errs only with its budget spent. |
| `Convergence.RoundsConverge` | relay/src/sync.rs:484-619 | Under that condition as many rounds as rows are ahead, plus one, and one more for a watermark above the advertised cursor, reach that cursor, however small the page budget and even when the newest rows are gone; each row that was ahead, after a reset every row up to it, came with its certificate, zone and numbers on a page ingested to the end. |
| `Convergence.TakenWasServed` | relay/src/sync.rs:526-619 | What several rounds take was on a page of one of them, ingested to the end. |
| `Convergence.RoundsStick` | relay/src/sync.rs:564-587 | A page on the way with more than 33 failing spaces stops the puller for good: no number of rounds moves the watermark past the cursor it is requested at, in whatever order spaces are visited and whatever the other pages cost. |
| `Convergence.RoughStops` | relay/src/sync.rs:564-587 | With any page on the way that has at least 33 failing spaces and more than 33 spaces, there are rounds, any number of them, that never get past it. |
| `Convergence.ConvergesIffGentle` | relay/src/sync.rs:484-619 | A puller is sure to catch up, from any watermark and over every order in which spaces may be visited, if and only if each page on the way has fewer than 33 failing spaces or at most 33 spaces in all. |
| `Convergence.PaginationCovers` | relay/src/store.rs:856-993 | Following `next_cursor` over an unchanging store delivers as main rows every row past the start exactly once, in write order. |
| `Convergence.ChainEnds` | relay/src/store.rs:856-993 | From any cursor the pages that follow one another come to the empty page, after at most as many pages as there are rows ahead. |
| `Convergence.ChainsAreShort` | relay/src/store.rs:856-993 | No such chain of pages is longer. |
| `SyncLoop.Syncer.SyncWithPeer` | relay/src/sync.rs:484-619 | A round leaves this peer's watermark exactly as its specification says: one above the advertised cursor becomes 0, one at it stays, as does any when nothing is advertised; and no other peer's watermark moves. |
| `SyncLoop.Syncer.PullFrom` | relay/src/sync.rs:521-619 | The page loop, with its stores of the watermark in between, computes the specified outcome. |
| `SyncLoop.CooldownIsExact` | relay/src/sync.rs:265-274 | A poke starts a sync if and only if every earlier poke-triggered sync of that peer is at least a cooldown old; pruning the map changes no decision. |
| `SyncLoop.EntriesAreSyncs` | relay/src/sync.rs:265-274 | Each entry of the map is the time of a poke-triggered sync of that peer. |
| `SyncLoop.SyncsAreNoted` | relay/src/sync.rs:265-274 | The map forgets no sync younger than a cooldown. |
| `SyncLoop.PokeLoop.Receive` | relay/src/sync.rs:265-274 | One poke off the queue syncs exactly when every earlier poke-triggered sync of that peer is at least a cooldown old. |
| `Ingest.Prefilter` | relay/src/sync.rs:320-349 | Drops exactly the records for whose handle the stored epoch, numbers and zone hash are the record's own, and counts them. |
| `Ingest.GroupBySpace` | relay/src/sync.rs:351-372 | Fails exactly when some surviving record is garbage; otherwise groups exactly the survivors that name a space. |
| `Ingest.Visit` | relay/src/sync.rs:373-470 | One space is gated, given up for want of a root, refused or stored, and is counted accordingly. |
| `Ingest.VisitAll` | relay/src/sync.rs:373-470 | Visits spaces until the failure budget is spent; incomplete exactly when a space was not reached. |
| `Ingest.IngestRecords` | relay/src/sync.rs:310-473 | The statistics are determined by the spaces reached, failures never exceed the budget, and it is incomplete exactly when some space was not reached. |
| `Ingest.CompleteMeansHandled` | relay/src/sync.rs:310-473 | An ingest that is not incomplete left no record unattempted, and it is sure not to be when fewer spaces of the page fail than the budget allows; a record given up for want of a root counts as a failed space. |
| `Ingest.FateMeans` | relay/src/sync.rs:320-416 | A record is dropped as a duplicate if and only if a row with its epoch, its two numbers and the hash of its zone is stored under its handle; only new handles of a gated space are gated; unattempted records are those of spaces not reached. |
| `Ingest.FailsMeans` | relay/src/sync.rs:401-470 | A record is given up for want of a root exactly when neither the store nor the batch, as far as the gate lets it through, has the root; a space counts as failed exactly then or when it is refused. |
| `Ingest.FatesAreCounted` | relay/src/sync.rs:310-473 | Each record is counted once by its fate, however the spaces are walked. |
| `Ingest.SpacesAreCounted` | relay/src/sync.rs:373-470 | The failed spaces and the stored total are those of the spaces reached, by what became of their records. |
| `Ingest.OutcomeCounts` | relay/src/sync.rs:310-473 | Any ingest that returns counts its duplicates, its gated records, the failed spaces and what the others stored, is cut short exactly when it left a record unattempted, and met no infrastructure failure and no record that does not decode or names another subject, duplicates aside. |
| `Ingest.AbortMeans` | relay/src/sync.rs:351-459 | It aborts only for such a record, or for a space that reaches verification and meets an infrastructure failure. |
| `Ingest.PrefilteredIffStored` | relay/src/sync.rs:320-349 | With hints read from a table whose hashes tell its zones from other bytes, a record is dropped as a duplicate if and only if the table holds its very zone and its numbers. |
| `Ingest.BudgetDecides` | relay/src/sync.rs:373-470 | With fewer failing spaces than the budget an ingest is complete and counts them all, with more it is incomplete and has spent the budget, in whatever order spaces are visited. |
| `Ingest.CutIsPossible` | relay/src/sync.rs:373-385 | A page whose failing spaces can spend the budget, with a space to spare, can be cut short. |
| `Ingest.IngestsKeepBudget` | relay/src/sync.rs:564-566 | Rounds whose ingests are ingests of some batch keep their budgets, so whatever a peer serves one round counts at most 33 failed spaces. |
| `Ingest.IncompleteMeansUnattempted` | relay/src/sync.rs:373-384 | An ingest that stopped early left some record unattempted. |
| `Ingest.WatermarkMeansHandled` | relay/src/sync.rs:484-619 | Over any run: every row now on the peer at or below the watermark was, with the zone and numbers it has now, already stored by the puller when its page was ingested, or without a space, gated, put through verification, or in a space counted as failed for want of its root; none was left unattempted. |
| `Ingest.RootedBatchFindsRoots` | relay/src/sync.rs:401-416 | If each sub-handle of a page finds its root on the page or in the store, no space is given up for want of a root, gate or not. |
| `Ingest.FetchedPageFindsRoots` | relay/src/sync.rs:401-416 | Over any run against a peer that holds the root of what it stores, with the delivered roots accepted, no space of a fetched page is given up for want of a root. |
| `Handler.FateMeans` | relay/src/handler.rs:302-436 | What decides each certificate's fate: no verified zone, more than 1024 bytes of records, no space, a stored row with the same three numbers and zone hash, a new handle of a gated space, or, where limits are charged, an exhausted limiter and a stored row of the same epoch or a later one. |
| `Handler.PassedInOrder` | relay/src/handler.rs:339-436 | The records passed on are those of the passing certificates in their order, each with its own zone, the epoch of its space or 0, and the numbers read off the zone. |
| `Handler.FatesAddUp` | relay/src/handler.rs:302-436 | Each certificate of a message comes to exactly one end. |
| `Handler.MessageHandler.Sift` | relay/src/handler.rs:339-438 | The filter passes on exactly the records with fate `Passed`, in order, and counts redeliveries and gated first inserts. |
| `Handler.MessageHandler.HandleMessage` | relay/src/handler.rs:248-467 | A verified message changes the store exactly as a bulk update of the passed records, or not at all; stored, skipped and gated are all its certificates but those without a zone or a space, too large or limited. |
| `Handler.RedeliveryIsSkipped` | relay/src/handler.rs:393-405 | A redelivery, recognised by metadata and zone hash, is a record the update rule would skip. |
| `Handler.SkippingEarlyIsInvisible` | relay/src/handler.rs:393-405 | Dropping redeliveries before the bulk update leaves the same database, row for row and number for number. |
| `Handler.SyncLosesNothing` | relay/src/handler.rs:242-436 | A message taken without charging the limiters, as sync takes it, leaves the database as a bulk update of every admitted record would. |
| `Replication.WatermarkSafety` | relay/src/sync.rs:484-619 | In every state of every run, with writes between any two steps and overlapping rounds: every row now on the peer at or below the stored watermark was delivered, in exactly that version, to a completed ingest. |
| `Replication.StepKeepsSafe` | relay/src/sync.rs:484-619 | Each step of peer or puller keeps the invariant behind this: what each round has seen covers its cursor. |
| `Replication.HonestPeerNeverResets` | relay/src/sync.rs:506-519 | Against a peer whose counter is never wiped no round takes the cursor space for reset. |
| `Replication.RisesIffOneRound` | relay/src/sync.rs:82-92 | The watermark never goes down, in any run, if and only if at most one round at a time runs against the peer. |
| `Replication.MarkFallsBeside` | relay/src/sync.rs:257-297 | With two rounds, and any number of idle ones beside them, there is a run in which it goes down. |
| `Replication.NoOrphans` | relay/src/sync.rs:401-416 | If the peer holds the root of what it stores and the puller accepts the roots it is sent, each sub-handle about to be ingested, in any run, finds its root on the page or at the puller. |
| `Replication.StoreRunsArePeerWrites` | relay/src/store.rs:475-529 | Any run of a store's bulk updates and evictions is a step the peer may take in these runs. |
| `Refinement.RoundIsRun` | relay/src/sync.rs:484-619 | Against a peer that answers each request from its store, whatever fails to come and however ingests end, a whole round of the page loop is a run of these steps, a reset included, and ends with the watermark and the deliveries the round's specification says. |
| `Refinement.RoundMissesNothing` | relay/src/sync.rs:484-619 | After any run and with other rounds standing anywhere, each row of the peer at or below the watermark a round leaves was delivered before, or came on a page this round ingested to the end, with its certificate, zone and numbers. |
| `Peers.AlwaysBounded` | relay/src/peer.rs:164-297 | In every reachable state the verified table is within its limit and both tables together within the sum of the limits. |
| `Peers.WithinIffRoom` | relay/src/peer.rs:370-393 | Over any history the unverified table stays within its own limit if and only if each demotion, of stale peers or for a third failure, found room there for what it demoted. |
| `Peers.UnverifiedCanOverflow` | relay/src/peer.rs:481-492 | It can go past it: a history of four calls that ends with two entries where one is allowed. |
| `Peers.SizeAfterDemotion` | relay/src/peer.rs:481-492 | A demotion of stale peers adds exactly those that are not in the unverified table already. |
| `Peers.SizeAfterFailure` | relay/src/peer.rs:370-393 | A sync failure adds one entry exactly when it is the third of a peer that is only verified. |
| `Peers.OthersStayWithin` | relay/src/peer.rs:164-402 | No other call takes the unverified table past its limit. |
| `Peers.StepKeepsBounded` | relay/src/peer.rs:164-392 | Each of the eight operations keeps both bounds. |
| `Peers.CounterMeaning` | relay/src/peer.rs:253-392 | Every verified entry's counter is below 3 and equals the failures charged to it, read off the calls, since its promotion or last successful sync; unverified entries have 0. |
| `Peers.ThirdFailureDemotes` | relay/src/peer.rs:370-393 | The third charged failure of a peer that is only verified demotes it. |
| `Peers.RefreshesDoNotReset` | relay/src/peer.rs:257-264 | No refresh or announcement clears the count of charged failures. |
| `Peers.PeerTable.AnnouncePeer` | relay/src/peer.rs:164-249 | One call does to the three maps what the relation for `announce` says: one slot per address, no eviction for unattributed entries, least-recently-seen evicted first. |
| `Peers.PeerTable.EvictUnverified` | relay/src/peer.rs:234-246 | The eviction loop ends within the limit, removing only entries seen no later than any it keeps, with their slots. |
| `Peers.PeerTable.EvictVerified` | relay/src/peer.rs:285-296 | The same for the verified table, which leaves the slots alone. |
| `Peers.PeerTable.MarkPeerAlive` | relay/src/peer.rs:253-297 | Refreshes a verified peer or promotes an unverified one with a clean counter, then evicts. |
| `Peers.PeerTable.MarkPeerSynced` | relay/src/peer.rs:303-309 | Does what `mark_alive` does and clears the counter. |
| `Peers.PeerTable.EnsureSeedPeer` | relay/src/peer.rs:332-361 | Adds an unknown seed as unverified, evicting if needed; leaves everything else alone. |
| `Peers.PeerTable.RecordSyncFailure` | relay/src/peer.rs:370-393 | Charges a verified peer, or moves an unverified one back in line; demotes at the third charge. |
| `Peers.PeerTable.Expire` | relay/src/peer.rs:397-402 | Drops exactly the unverified entries past their time to live. |
| `Peers.PeerTable.DemoteStale` | relay/src/peer.rs:481-492 | Moves exactly the stale verified entries to unverified, where an entry already there keeps its place. |
| `Peers.PeerTable.RemovePeer` | relay/src/peer.rs:320-325 | Removes a URL from all three maps and changes nothing else. |
| `PeerEntries.EachCallTold` | relay/src/peer.rs:164-402 | What each of the eight calls does to an entry and an IP slot, column by column: who is dated and with what, who comes in with what entry, who leaves and for what reason, who is evicted in whose favour. |
| `PeerEntries.DemotionIsExact` | relay/src/peer.rs:481-492 | Over any history a demotion takes a verified peer if and only if the last call that showed it alive was at least the time to live ago, and leaves it unverified. |
| `PeerEntries.ExpiryIsExact` | relay/src/peer.rs:397-402 | Over any history an expiry drops an unverified peer if and only if it was last announced, or came in, at least the time to live ago; failed syncs and health checks do not keep it. |
| `Eviction.SweepSparesRoots` | relay/src/retention.rs:124-225 | A sweep deletes no root row and changes no row it leaves, and its count is rows before minus rows after. |
| `Eviction.PassBeginsOver` | relay/src/retention.rs:126-141 | No pass begins at or under the budget while nothing was evicted, nor, once something was, with a hundred times the bytes at or under the budget times the low-water percentage, which counts up to 100. |
| `Eviction.WorstGoesFirst` | relay/src/retention.rs:143-176 | A pass takes from the space that is over its entitlement in the greatest proportion, compared by cross multiplication, or from a largest one if none is over. |
| `Eviction.BatchBounds` | relay/src/retention.rs:178-216 | A pass deletes at most a batch, out of the oldest rows of the space, twice a batch of them if there are as many; hot ones only if all of these are hot. |
| `Eviction.WithinEntitlementGoesLast` | relay/src/retention.rs:149-208 | A row of a space within its entitlement is deleted only when no space that is not exhausted is over its own; a recently queried handle only when every candidate was. |
| `Eviction.OldestColdFirst` | relay/src/retention.rs:178-210 | A batch takes the oldest rows that were not queried recently. |
| `Eviction.SweepTakesOldest` | relay/src/retention.rs:178-216 | Whatever row a pass deletes, every evictable row of its space that stays was updated no earlier, or was queried recently. |
| `Eviction.SweepEnds` | relay/src/retention.rs:124-225 | Every pass uses up a non-root row or a space, so a sweep is at most as long as there were of both. |
| `Eviction.NothingOpenMeansOnlyRoots` | relay/src/retention.rs:143-176 | When no space is left to evict from, only root rows are left. |
| `Eviction.BatchDeletes` | relay/src/retention.rs:193-222 | A chosen batch always deletes something, so the early exit on zero deletions is never taken. |
| `Eviction.GateNeedsRows` | relay/src/retention.rs:89-104 | The gate only closes on a space that has rows; where every stored handle has its root stored, the gated space's root is stored. |
| `Eviction.SweepKeepsRootClosed` | relay/src/store.rs:619-631 | A sweep that spares roots keeps the root of everything it leaves. |
| `Retention.TouchKeepsHot` | relay/src/retention.rs:51-78 | A touched handle stays hot through touches of fewer than `cap` distinct handles, and neither set ever exceeds `cap`. |
| `Retention.HotWasTouched` | relay/src/retention.rs:51-78 | No handle is hot that was not touched. |
| `Retention.QueryHeat.Touch` | relay/src/retention.rs:68-73 | One touch swaps the generations when the active one is full, then adds the handle. |
| `Retention.GateFirstInsert` | relay/src/retention.rs:89-104 | True exactly when a budget is set, the stored bytes exceed it, and the space has more rows than its entitlement for each epoch on record, one at least. |
| `Retention.PickVictim` | relay/src/retention.rs:149-176 | The over-entitled space with the worst ratio, or the largest space when none is over. |
| `Retention.Survey` | relay/src/retention.rs:143-192 | One look at the store: the usage of every space, the victim among those not exhausted and its oldest candidates; closed exactly when no space is left. |
| `Retention.Carry` | relay/src/retention.rs:193-222 | Gives up on a victim without candidates, or deletes one batch of it, cold handles first. |
| `Retention.SweepOnce` | relay/src/retention.rs:124-225 | One sweep is a run as specified and counts what it deleted; a relay within its budget loses nothing, and a sweep that stops by itself with evictable rows left has brought the relay down to the low-water mark, if it deleted anything. |
| `Anchors.MergeIsUnique` | fabric/rust/src/client.rs:133-143 | Only one list is the merge of the sources: strictly descending, every height once, each taken where the sources have it first. So both clients' algorithms yield the same list. |
| `Anchors.PriorityHolds` | fabric/rust/src/client.rs:120-143 | Each anchor of the merge comes from the highest-priority source that has its height. |
| `Anchors.TipIsNewest` | fabric/rust/src/lib.rs:107-115 | The first entry of a merge is the newest of all sources, which is what `tip_height` reads. |
| `Anchors.SortByHeight` | fabric/rust/src/client.rs:139 | A stable sort by descending height: ordered, and each height keeps its own anchors in their own order. |
| `Anchors.DedupByHeight` | fabric/rust/src/client.rs:140 | Dropping neighbours of equal height turns a descending list into its merge. |
| `Anchors.AnchorPool.Merged` | fabric/rust/src/client.rs:133-143 | Sorting the three sources one after the other and then dropping neighbours yields their merge. |
| `Anchors.FirstSeen` | fabric/js/fabric-core/src/fabric.ts:268-274 | Filtering with the set of heights seen keeps exactly the first anchor of each height. |
| `Anchors.Fabric.RebuildVeritas` | fabric/js/fabric-core/src/fabric.ts:260-278 | Dropping repeats and then sorting yields the merge; with no anchors at all the verifier stays as it was. |
| `Quorum.NobodyVotesTwice` | fabric/rust/src/client.rs:588-600 | Two different roots together never have more voters than there are verified ballots, nor those more than the pool. |
| `Quorum.MajorityIsUnique` | fabric/rust/src/client.rs:251-260 | Under a strict majority at most one root can meet quorum. |
| `Quorum.AllMeansEveryRelay` | fabric/rust/src/client.rs:240-260 | Under `All` a root meets quorum exactly when every relay of the pool voted for it. |
| `Quorum.UnambiguousIffMajority` | fabric/rust/src/client.rs:240-260 | A required number leaves the winner unambiguous, for every vote of a pool, exactly when it is more than half the pool. |
| `Quorum.Tally` | fabric/rust/src/client.rs:588-600 | Each root that got a vote is kept with its voters in order and the height its first voter signed; verified ballots are counted. |
| `Quorum.Winner` | fabric/rust/src/client.rs:602-605 | No entry has more votes, nor as many and a greater height. |
| `Quorum.WinnerDecides` | fabric/rust/src/client.rs:606-608 | The winner meets quorum exactly when some root has at least max(1, required) votes, and agreed is at most verified, which is at most the pool. |
| `Quorum.VotersAreCounted` | fabric/rust/src/client.rs:588-600 | The voters of a root are as many as the ballots for it, and the verified ones as many as the ballots with a choice. |
| `Quorum.WonMeans` | fabric/rust/src/client.rs:602-605 | A winner has some ballots, the height of the first of them, and no root with more ballots, nor one with as many whose first ballot is higher. |
| `Quorum.SemiTrust.Refresh` | fabric/rust/src/client.rs:583-637 | Quorum is reported exactly when some root has at least one ballot and as many as the policy asks: all, the given number, or more than half; then a winner of the vote is pinned, and in every other case nothing is unpinned. |
| `Quorum.LatestByScore` | fabric/js/fabric-core/src/fabric.ts:1252-1262 | The loop over the answers returns one of the highest score. |
| `Quorum.ScoreFaithfulIff` | fabric/js/fabric-core/src/fabric.ts:1255-1262 | The score ranks all candidates of bounded height by votes, then height, if and only if the bound is below one million. |
| `Quorum.ClientsAgree` | fabric/rust/src/client.rs:1571-1575 | Below one million, the highest score and the greatest (votes, height) pick the same winners. |
| `Quorum.ClientsDisagree` | fabric/js/fabric-core/src/fabric.ts:1255-1262 | Above it they can differ: two votes at height 0 lose to one at height 1,000,001. |
| `Hints.FoldedKeepsHighest` | fabric/rust/src/lib.rs:204-215 | Flattening keeps exactly the handles that have a number above 0, each with its highest. |
| `Hints.FoldedIgnoresOrder` | fabric/rust/src/lib.rs:204-215 | Flattening depends only on which hints there are, not on their order or their grouping into epochs. |
| `Hints.Flatten` | fabric/rust/src/lib.rs:204-215 | The loops over epochs and hints compute that flattening. |
| `Hints.CountHandles` | fabric/rust/src/lib.rs:168-180 | Walking both maps in any order gives one vote per handle either side knows. |
| `Hints.Compare` | fabric/rust/src/lib.rs:152-194 | The loops of `cmp` compute the specified order, anchor tips on a tie. |
| `Hints.ScoreByName` | fabric/rust/src/lib.rs:152-188 | With no name twice, the score is one vote per space either side names. |
| `Hints.ScoreCountsLeads` | fabric/rust/src/lib.rs:152-194 | The score is a count: one for each component of a common space in which the first answer is ahead, less one for each in which the second is, and one for each space only one of them names. |
| `Hints.CmpReverses` | fabric/rust/src/lib.rs:152-194 | For responses without a repeated name, comparing the other way round gives the reverse. |
| `Hints.FresherRanksHigher` | fabric/rust/src/lib.rs:152-194 | A response at least as fresh in every component never ranks lower, and ranks higher as soon as one is strictly fresher; the tips decide only between responses that agree. |
| `Hints.RankingCycles` | fabric/rust/src/lib.rs:152-194 | The order is not transitive: three responses that rank above one another in a circle. |
| `Reversal.ReversesIff` | fabric/rust/src/lib.rs:152-194 | Comparing with `x` the other way round gives the reverse, for every response that names no space twice, if and only if `x` names none twice, or all its hints are blank and for one space. |
| `Hints.RepeatedNameBreaksReversal` | fabric/rust/src/lib.rs:156-188 | With a repeated name both of two responses can rank above the other. |
| `Hints.HintFor` | relay/src/handler.rs:191-215 | A space's hint repeats its row, groups requested sub-handles by their own epoch, and flattens back to exactly their numbers. |
| `Hints.Answer` | relay/src/handler.rs:167-220 | Refuses exactly the requests that repeat a handle; otherwise names each stored space asked for once, described by its rows. |
| `Hints.AnswerShows` | relay/src/handler.rs:167-220 | An answer shows exactly the handles asked for and stored that begin with a marker, each with its row's epoch and numbers. |
| `Hints.AnswerLists` | relay/src/handler.rs:191-215 | Under a space it lists exactly the longer handles asked for and stored that end in its name, with their numbers, under their own epochs. |
| `Ranking.ComparableTransitive` | fabric/rust/src/lib.rs:152-194 | Among responses that are pairwise comparable component by component the order is transitive. |
| `Ranking.RelaysRankTransitively` | fabric/rust/src/client.rs:1183-1186 | So sorting the answers of relays by it is well defined when of any two relays one stores at least what the other does, of what was asked for. |
| `Ranking.FresherScoresHigher` | fabric/rust/src/lib.rs:152-194 | A response that names the same spaces as another and is at least as fresh in everything scores at least as high against any third. |
| `Ranking.ConsistentIffFresher` | fabric/rust/src/lib.rs:152-194 | Everything that `y` is ranked at least as high as is something `x` is too, in any company, if and only if both name the same spaces and `x` is at least as fresh throughout, tip included. |
| `Hints.FresherRelayRanksHigher` | relay/src/handler.rs:167-220 | Of two relays asked the same, one that stores at least as fresh a version of everything is never ranked below the other. |

## Left out

- HTTP, JSON, rate limiters, semaphores, DNS and URL normalisation: URLs are opaque keys, the clock is a
  parameter, and a limiter's answer is a parameter of `Handler`.
- The libraries behind `UpdateRule.Codec` (borsh, SHA-256, libveritas): decoding inverts encoding where a lemma
  says `Faithful`; nothing is known of `is_better_than` except in `Handler`, which needs that a zone is not
  better than itself and that the stored zone does not collide with the incoming one under the hash.
- SQL as a language: a table is a map, a statement computes all its rows before it writes one, triggers fire for
  displaced rows, transactions are atomic and operations on one store do not interleave inside.
- 64-bit overflow of the counter and the totals, and the text form of cursors: both are plain numbers here. An
  unreadable watermark, summary cursor or page cursor is modelled as a missing one.
- `f64` rounding in the choice of the victim: `Eviction.Ratio` is exact, so ties that only rounding makes are not
  modelled; with no entitlement configured all ratios are infinite and equal.
- Handles are counted in characters, one byte each.
- In `Convergence`, transport errors and infrastructure failures: a round that one of them ends makes no progress. A
  page's cost is fixed in `ConvergesIffGentle`; `RoundsConverge` lets it differ from round to round.
- The address and reverse indexes (`set_addrs`, `set_revs`, and their clean-up in `delete_handles`): nothing keeps
  them equal to the stored zones.
- Writers between a sweep's look at the store and its deletion, and between a message's filter and its bulk update:
  `Retention.SweepOnce` and `Handler.MessageHandler.HandleMessage` run alone.
- Within an ingest, what the store and the verifier answer for a space is a function of the space; the order of
  records inside a space's message is not kept.
- `sync_round`'s random choice of peers, the maintenance loop, poke sending, and the queue behind the poke loop.
- Whole-mesh convergence to one best zone: it depends on `is_better_than`, which is not visible here.
- Whether a record dropped by the sync pre-filter would also have been skipped after verification: verification
  may prove a fresher zone than the one claimed.
- Database errors, which the code passes on to its caller everywhere.
- Receipt stripping for clients with an epoch hint (`epoch_hint_verifiable_by`), zone caches, badges, the relay
  pool's shuffling, and the clients in other languages that repeat the same merge and score.
