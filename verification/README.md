# FyroDB in Dafny

A model of the parts of FyroDB where correctness is least obvious from reading one function, with
machine-checked proofs of what those parts promise together. `dafny verify dfyconfig.toml` checks
all of it.

Every module follows one source component. Code that changes state in place is a class or a loop;
code that only computes is a function. Concurrent protocols are state machines whose steps are the
atomic operations of the source, taken under sequential consistency.

**Search postings.** `SearchModel`, `IdLists`, `Postings`, `NumericPostings`, `FilterIndex`,
`ScanAgreement`, `DirtySet`, `DirtyRace`, `SearchHistory`, `SearchRace`. The inverted index with
tombstones, deltas and threshold rebuilds. `FilterIndex.Index.Valid` ties every table to the list of documents
ever indexed; `SearchHistory.SearchState.Valid` says that the postings agree with the keyspace on
every key that is not marked dirty. The main result is `SearchHistory.SearchAfterHistory`: after any
history of writes, deletes, flushes and queries, what the postings answer is exactly what the
condition selects from the keyspace, and on plain conditions exactly what a keyspace scan returns.
There every call is one step; `DirtyRace` interleaves the calls on the dirty set, and `SearchRace`
the writers with the queries.

**Replication.** `Codec`, `BatchCodec`, `MutationLog`, `Journal`, `Recovery`, `Replica`. The bounded
log keeps precisely the longest tail that fits its two bounds; a restart after any earlier appends and
restarts gives that log back; no schedule of lost, repeated or reordered deliveries and snapshots makes a replica differ
from a prefix of the primary's history.

**Cluster.** `Crc16`, `Slots`, `Topology`, `ClusterEdits`, `Failure`, `ClusterState`, `ClusterRuns`,
`Routing`. Slicing-by-8 CRC16 against the bit-by-bit definition and polynomial division; slot ownership under migration,
assignment, failover and administration, over every run; the routing table against the scan; where
MOVED and ASK redirects lead.

**Wake-ups.** `Notifier`, `SubSlot`. No interleaving of any number of producers loses a wake-up.

**Codes and cursors.** `Geo`, `Bitfield`, `ScanCursor`, `Histogram`. Geohash and bit-field round
trips, SCAN enumerating a table once, and the error bound of the benchmark histogram.

`Words` and `Wrappers` hold what several models share.

## Where the code does less than one would expect

The model follows the code. Where a natural claim is false of it, a lemma gives the exact condition.

- A text condition made only of stopwords returns every indexed document from the postings, but only
  the documents that have the field from the scan (`ScanAgreement.TextAgreesEverywhereIff`).
- The scan does not resolve field aliases, the postings do (`TextAgreesEverywhereIff`,
  `NumericAgreesEverywhereIff`, `TagAgreesEverywhereIff`); and a NaN upper bound empties a range for
  the postings only (`RangeAgreesIff`).
- The scan splits a tag value by the separator of the first field of any type with that name or
  alias. A text field aliased to the tag field's name lends it the wrong one: `BorrowedSeparator` is
  such a schema and document, `TagAgreesEverywhereIff` the exact condition.
- Postings kept up by deltas decline a range for a NaN that only overwritten documents held, and
  answer a range or a negated tag whose field only they had, where fresh postings do the opposite
  (`SearchHistory.RangeAnswersDiffer`, `TagAnswersDiffer`). A write, a query and an overwrite
  reach each case under every schema (`OverwrittenNaN`, `OverwrittenNumber`, `OverwrittenTag`); the
  documents the postings go by are exactly those some query found, as long as there was no flush and
  at most 1024 writes (`IncrementalMatchesRebuild`).
- `mark_all` clears shard after shard. A key marked after an intervening drain can be erased by a
  late clear: `DirtyRace.SplitMarkAllLosesAKey` is such a run. A drain or reset can lose a key if and
  only if it begins while some `mark_all` has yet to clear that key's shard (`MayBeginIff`).
- `is_clean` loads the flag and then the counter. A `mark_all` between the two makes it answer clean
  while a marked key is still owed: `DirtyRace.TwoLoadsMissAKey` is such a run, and `CleanReadIff` the
  exact condition. The fast path of `filter_index` (src/search/filter.rs:568-572) would then return
  postings without a write that was already marked.
- That fast path takes no lock. It can return postings without a write completed before the query
  began if and only if another query holds the build lock at that moment, or a rebuild was installed
  since the index was fetched (`SearchRace.FastPathIff`).
- A mutation with expiry 0, with an empty key, or with a value where its kind allows none does not
  survive encoding (`Codec.MutationRoundTrip`). The journal silently skips a record over the field
  limits, so a restart then comes back with a smaller next offset and gives offsets out again; exactly
  when is `Recovery.RestartRestoresIff`.
- A migration or SETSLOT to a replica that still lists slots makes it the owner of those as well
  (`ClusterEdits.MovesExactlyOneSlot`).
- An owner that sends ASK to a node which is not importing the slot sends the client round for ever
  (`Routing.RedirectsEndIffSettled`).
- BITFIELD FAIL on a 64-bit field does not see overflow, and SAT on `u64` clamps at 2^63 - 1
  (`Bitfield.Signed64Fail`, `Unsigned64Sat`, `Unsigned64Fail`, `FullWidthFails`).
- A latency of 2^46 ns or more is reported as 2^46 - 1 (`Histogram.Hist.Percentile`).

## Model

| member | source | states |
|---|---|---|
| `IdLists.IntersectIds` | src/search/filter.rs:455-470 | the two-index loop returns the common ids, strictly ascending |
| `IdLists.UnionIds` | src/search/filter.rs:472-495 | the ids of either list, strictly ascending and each once |
| `IdLists.ComplementIds` | src/search/filter.rs:498-512 | the ids below `total` that are not in the list, strictly ascending |
| `Postings.AddTags` | src/search/filter.rs:134-150 | the tag loop of `add_doc` keeps every tag's list equal to the ascending ids of the documents that carry it |
| `SearchModel.SplitAtPiece` | src/search/filter.rs:138 | the piece of a text that begins at a position is in the list after those that the separators before it end |
| `SearchModel.SplitCount` | src/search/filter.rs:138 | there is one piece more than separators |
| `SearchModel.SplitIff` | src/search/filter.rs:138 | a string is among the pieces iff it stands in the text between separators or ends and holds none |
| `SearchModel.TagTokensIff` | src/search/filter.rs:134-140 | the same of a document's tags |
| `SearchModel.KeepWordsAppend` | src/search/mod.rs:41-47 | each word is kept, lower-cased, or dropped as empty or a stopword, by itself and in order |
| `SearchModel.TokensIff` | src/search/mod.rs:41-47 | the tokens are the maximal runs of letters and digits, lower-cased, without stopwords |
| `SearchModel.TagHoldsIff` | src/search/filter.rs:134-150 | a tag condition holds iff one of its tags stands between separators in the document |
| `SearchModel.TermInDocIff` | src/search/filter.rs:161-170 | a term occurs iff it is a word of the text of some field in scope |
| `SearchModel.TextHoldsIff` | src/search/filter.rs:259-290 | a text condition asks for each term, lower-cased, except the stopwords |
| `SearchModel.MatchesKeyIff` | src/search/schema.rs:115-117 | an index without prefixes takes every key, else one that continues a prefix |
| `ScanAgreement.TextMatchIff` | src/commands/ft/doc.rs:216-226 | what the scan takes one term to match, patterns and stopwords included |
| `ScanAgreement.TrimStarsIs` | src/commands/ft/doc.rs:216-219 | all trailing stars come off a pattern, and nothing else |
| `Postings.TaggedIff` | src/search/filter.rs:420-434 | a tag field has postings iff some document ever had it |
| `Postings.CountTokens` | src/search/filter.rs:162-170 | one field's tokens are counted, saturating at 16 bits, and so is its length |
| `Postings.AddTexts` | src/search/filter.rs:161-181 | the text loop keeps term postings, term counts, document lengths and live length sums right for one more document |
| `Postings.ForgetLens` | src/search/filter.rs:217-223 | a tombstone takes exactly the dead document's length off every live sum, so the saturating subtraction never saturates |
| `NumericPostings.AddNumbers` | src/search/filter.rs:151-160 | the numeric loop queues each parsed number for the new id and records a NaN by field |
| `NumericPostings.MergePairs` | src/search/filter.rs:184-206 | merging two sorted pair lists is sorted and keeps every pair with its multiplicity |
| `NumericPostings.MergeNums` | src/search/filter.rs:184-206 | every queued batch is sorted and merged in and nothing stays queued |
| `NumericPostings.NumberedIff` | src/search/filter.rs:347-360 | a numeric field has postings iff some document ever held a number there |
| `NumericPostings.SliceIsRange` | src/search/filter.rs:347-388 | the slice between the two partition points holds exactly the pairs in range, also when the range is inverted |
| `NumericPostings.ResolveRange` | src/search/filter.rs:347-388 | a range over a NaN-free field gives each document in range once, ascending when asked |
| `FilterIndex.ResolveTags` | src/search/filter.rs:395-409 | the tag arm: declines exactly on globs, else the ascending union of the tags' documents |
| `FilterIndex.TermDocs` | src/search/filter.rs:249-257 | ascending ids of the documents that hold the term in some field of the scope |
| `FilterIndex.TextDocs` | src/search/filter.rs:261-286 | ascending ids of the documents that hold every term that is not a stopword; all documents if there is no such term |
| `FilterIndex.RetainAlive` | src/search/filter.rs:90-98 | the final filter drops the tombstoned ids and nothing else, keeping order and uniqueness |
| `FilterIndex.Index.AddDoc` | src/search/filter.rs:124-182 | the index stays consistent with the list of documents ever indexed, extended by this one under the next id |
| `FilterIndex.Index.Bury` | src/search/filter.rs:213-224 | a written key's document dies, `dead` counts it, every other key's live document stays |
| `FilterIndex.Index.Apply` | src/search/filter.rs:210-239 | afterwards each written key's live document is what the keyspace holds for it, and no other key changed; the documents ever indexed grow by exactly those, the tombstones by at most one a key |
| `FilterIndex.Index.MergeAdded` | src/search/filter.rs:238 | ending a batch restores the full invariant and changes no live document |
| `FilterIndex.NumericGuard` | src/search/filter.rs:347-360 | the guards of a range query say whether any document ever held a number, or NaN, in the field |
| `FilterIndex.TagGuard` | src/search/filter.rs:420-434 | the guard of a negated tag says whether any document ever had the field |
| `FilterIndex.Index.LiveAmongEver` | src/search/filter.rs:210-239 | live documents are among those ever indexed, and all of them if nothing is dead |
| `FilterIndex.Index.ResolveNumeric` | src/search/filter.rs:347-388 | answers exactly if documents held numbers and never NaN in the field; returns the documents, dead or alive, whose number is in range |
| `FilterIndex.Index.ResolveText` | src/search/filter.rs:241-286 | answers exactly for glob-free, non-empty conditions on covered fields; pointwise the documents that satisfy it |
| `FilterIndex.Index.ResolveRaw` | src/search/filter.rs:391-452 | answers exactly the answerable conditions; strictly ascending, and an id is in iff its document satisfies the condition, through And, Or and both negations |
| `FilterIndex.Index.ResolveBoth` | src/search/filter.rs:435-450 | the And and Or arms of the recursion |
| `FilterIndex.Index.ResolveLive` | src/search/filter.rs:82-99 | selects exactly the live keys whose document satisfies the condition; ids live, unique, ascending unless an unordered range was asked for |
| `FilterIndex.Index.SelectsLiveDocs` | src/search/filter.rs:82-99 | right on every live id means right on every key |
| `FilterIndex.BuildFilterIndex` | src/search/filter.rs:514-555 | none for JSON storage; else a valid index without tombstones whose live documents are exactly the keyspace's |
| `ScanAgreement.RangeAgreesIff` | src/search/query.rs:26-46 | slice and scan agree on a number unless a NaN upper bound is in play |
| `ScanAgreement.ScanAgrees` | src/commands/ft/doc.rs:127-245 | on plain conditions the postings' meaning and the scan give the same verdict on every document |
| `ScanAgreement.StopwordsOnly` | src/commands/ft/doc.rs:177-226 | stopwords only: every document for the postings, those with the field for the scan |
| `ScanAgreement.TextAgreesEverywhereIff` | src/commands/ft/doc.rs:177-226 | a text condition is answered alike on all documents iff some term is not a stopword and, for a named scope, the name is the stored one or no text can hold the terms |
| `ScanAgreement.NumericAgreesEverywhereIff` | src/commands/ft/doc.rs:228-245 | a range is answered alike on all NaN-free documents iff it uses the stored name or nothing can be in range, and no NaN upper bound leaves a number to the scan alone |
| `ScanAgreement.TagAgreesEverywhereIff` | src/commands/ft/doc.rs:146-175 | a tag condition is answered alike on all documents iff it uses the stored name and both sides split by one separator, or every wanted tag contains both separators |
| `ScanAgreement.BorrowedSeparator` | src/search/schema.rs:118-123 | a schema, document and tag that postings match and the scan does not, through the separator of another field |
| `DirtySet.DirtySet.constructor` | src/search/hooks.rs:28-38 | starts clean |
| `DirtySet.DirtySet.Mark` | src/search/hooks.rs:46-60 | the key is owed and stays recorded, or the set overflows, which a small set never does; `pending` stays the sum of the shard sizes |
| `DirtySet.DirtySet.ClearShards` | src/search/hooks.rs:62-69 | clearing takes exactly what each shard held off the counter, so it ends at zero without underflow |
| `DirtySet.DirtySet.MarkAll` | src/search/hooks.rs:62-69 | everything is to be rebuilt; nothing owed is forgotten |
| `DirtySet.DirtySet.IsClean` | src/search/hooks.rs:71-74 | true iff nothing was marked since the last drain or reset |
| `DirtySet.DirtySet.Drain` | src/search/hooks.rs:76-93 | Rebuild iff overflowed, else every marked key exactly once; leaves the set clean with `pending` zero |
| `DirtySet.DirtySet.Reset` | src/search/hooks.rs:95-103 | leaves the set clean |
| `DirtyRace.StepSound` | src/search/hooks.rs:46-102 | each interleaved step keeps an owed key recorded and the counter exact, unless it begins a drain or reset while some `mark_all` has yet to clear the key's shard |
| `DirtyRace.OwedChanges` | src/search/hooks.rs:46-102 | when a key is owed: from the step by which its mark takes effect until the end of the drain or reset that takes it |
| `DirtyRace.GuardedRunsAreSound` | src/search/hooks.rs:46-102 | over every run whose drains and resets begin only when that is safe for a key, the key is never forgotten |
| `DirtyRace.UnsafeBeginLosesKey` | src/search/hooks.rs:62-103 | from any state, a drain or reset that begins unsafely for a key can be carried on so that the key is marked, erased, and the set reads clean |
| `DirtyRace.MayBeginIff` | src/search/hooks.rs:62-103 | a drain or reset can lose a key iff it begins while some `mark_all` has yet to clear that key's shard |
| `DirtyRace.CleanMeansNothingOwed` | src/search/hooks.rs:71-74 | asked between drains, a clean answer means that nothing was owed at the first load, whatever runs between the two loads except a flag raise or the begin of a drain or reset |
| `DirtyRace.CleanReadIff` | src/search/hooks.rs:71-74 | between drains, a clean answer can miss a key owed before the first load iff a flag raise, or the begin of a drain or reset, may fall between the loads |
| `DirtyRace.QuietReadIff` | src/search/hooks.rs:71-74 | with neither between the loads, and whatever was under way at the first: an owed key can be missed iff the loops then running will come to every shard that holds a key |
| `DirtyRace.RaiseMisses` | src/search/hooks.rs:62-74 | from any state with an owed key and the flag down, a whole `mark_all` between the loads makes the answer clean with the key still owed |
| `DirtyRace.BeginMisses` | src/search/hooks.rs:71-102 | and so does the begin of a drain or of a reset |
| `DirtyRace.TwoLoadsMissAKey` | src/search/hooks.rs:46-74 | from the initial state, for every key and hash, a run in which a marked key is missed with all calls returned |
| `DirtyRace.SplitMarkAllLosesAKey` | src/search/hooks.rs:62-69 | from the initial state, for every key and hash, a run that ends with all calls returned, the set clean and the key lost |
| `SearchHistory.SearchState.Write` | src/search/hooks.rs:194-201 | a write or delete, stored and then marked, changes that key only and keeps postings and keyspace agreeing off the dirty keys |
| `SearchHistory.SearchState.Clear` | src/search/hooks.rs:203-208 | FLUSHALL empties the keyspace and orders a rebuild |
| `SearchHistory.SearchState.FilterIndex` | src/search/filter.rs:559-595 | declines exactly for keys with a time to live or JSON storage; else nothing is dirty and the live documents are exactly the keyspace's, by delta or by rebuild |
| `SearchHistory.CatchUp` | src/search/filter.rs:575-583 | a drained batch is applied exactly, and a rebuild is due iff there are more than 1024 tombstones and they exceed a quarter of all ids |
| `SearchHistory.SearchState.Refresh` | src/search/filter.rs:573-594 | the part behind the build lock; afterwards tombstones are within the bound, and a rebuild without overflow happened only if they could exceed it |
| `SearchHistory.SearchState.Search` | src/search/filter.rs:559-595 | answers exactly when the postings can, with exactly the keys the condition selects, and the scan's on plain conditions |
| `SearchHistory.SearchState.Run` | src/search/hooks.rs:194-208 | any history keeps the invariant, leaves the keyspace its writes say, and has seen exactly the documents its queries found |
| `SearchHistory.SearchAfterHistory` | src/search/filter.rs:514-595 | after every history, answers are exactly what the condition selects from the keyspace that history left, and on plain conditions what its scan returns; the documents ever indexed lie between those now in the keyspace and those some query found |
| `SearchHistory.IncrementalMatchesRebuild` | src/search/filter.rs:514-595 | an index kept up by deltas and one built afresh select the same keys whenever both answer; the first answers by all documents it ever saw, which are exactly those some query found unless there was a flush or more than 1024 writes, the second by those in the keyspace |
| `SearchHistory.RangeAnswersDiffer` | src/search/filter.rs:347-360 | exactly when one of the two answers a range and the other declines |
| `SearchHistory.TagAnswersDiffer` | src/search/filter.rs:420-434 | exactly when one of the two answers a negated tag and the other declines |
| `SearchHistory.OverwrittenLingers` | src/search/filter.rs:210-239 | after a write, a query and an overwrite, both documents were found and only the second is kept |
| `SearchHistory.OverwrittenNaN` | src/search/filter.rs:347-360 | under every schema, a history after which the index kept up by deltas declines a range that a fresh one answers |
| `SearchHistory.OverwrittenNumber` | src/search/filter.rs:347-360 | under every schema, a history after which it answers a range that a fresh one declines |
| `SearchHistory.OverwrittenTag` | src/search/filter.rs:420-434 | and the same for a negated tag |
| `SearchHistory.AnswerableIsOrdered` | src/search/filter.rs:347-360 | a field the postings range over has no NaN in any live document |
| `SearchRace.StepInv` | src/search/filter.rs:562-595 | each interleaved step of writers, observer, lock holder and fast-path queries keeps: no index is ahead of the keyspace, and with the lock free the current one lacks only completed writes that are still marked |
| `SearchRace.RunsKeep` | src/search/filter.rs:562-595 | and so does every run |
| `SearchRace.FastPathSees` | src/search/filter.rs:567-572 | in every run, a fast-path query that found the lock free and its index current shows every write completed before it began |
| `SearchRace.SlowPathSees` | src/search/filter.rs:573-594 | in every run, the index left by a batch or a rebuild shows every write completed before its drain, whatever lands meanwhile |
| `SearchRace.UnsettledMisses` | src/search/filter.rs:567-594 | from every state with the lock free there is a run in which a query misses a completed write, for each of the three other cases |
| `SearchRace.FastPathIff` | src/search/filter.rs:562-595 | a fast-path query can miss a completed write iff the lock was held, or another index installed, at its clean check |
| `Codec.BigEndianAt` | src/cluster/replication.rs:589-594 | the byte at each position of a number, most significant first |
| `Codec.WireLayout` | src/cluster/replication.rs:581-599 | where each field of an encoded record stands, and the number of each kind |
| `Codec.CarriableIff` | src/cluster/replication.rs:581-607 | the records the format carries, by lengths, kind and expiry |
| `Codec.PrefixIsTruncated` | src/cluster/replication.rs:668-701 | a record cut short anywhere is reported as truncated |
| `Codec.DecodeRefuses` | src/cluster/replication.rs:668-701 | which bytes are refused as truncated, invalid or too large |
| `Codec.DecodeOfEncoded` | src/cluster/replication.rs:581-607 | what the decoder makes of any encoded record within the limits, errors included |
| `Codec.MutationRoundTrip` | src/cluster/replication.rs:668-701 | decode undoes encode exactly on records with a key, no forbidden value, no zero expiry, within the limits |
| `Codec.AcceptedBytesReencode` | src/cluster/replication.rs:668-701 | accepted bytes re-encode to themselves, for every byte string |
| `BatchCodec.EncodeBatch` | src/cluster/replication.rs:611-623 | the loop produces count and frames, or TooLarge iff some record is over the limits |
| `BatchCodec.BatchLayout` | src/cluster/replication.rs:611-623 | a batch is its count in four bytes, most significant first, and then its frames |
| `BatchCodec.DecodeBatch` | src/cluster/replication.rs:625-649 | the loop reads what the recursive reading of count and frames says, errors included |
| `BatchCodec.FramesRoundTrip` | src/cluster/replication.rs:611-649 | frames read back as the same records iff all are carriable |
| `BatchCodec.BatchRoundTrip` | src/cluster/replication.rs:611-649 | a batch reads back iff all its records are carriable and the count is in bounds |
| `BatchCodec.AcceptedBatchReencodes` | src/cluster/replication.rs:625-649 | accepted batch bytes are the encoding of what they were read as |
| `MutationLog.Evict` | src/cluster/replication.rs:518-524 | the eviction loop keeps the longest tail within both bounds, and the counter, saturation included, ends exact |
| `MutationLog.LongestFitUnique` | src/cluster/replication.rs:518-524 | the bounds leave one choice of what to keep |
| `MutationLog.RetainedIff` | src/cluster/replication.rs:510-526 | what is retained, by record count and by lengths of keys and values alone |
| `MutationLog.Log.constructor` | src/cluster/replication.rs:501-509 | an empty log with capacity at least one starts at offset 1 |
| `MutationLog.Log.Append` | src/cluster/replication.rs:510-526 | refuses iff the offset is behind; else the record gets the next offset, offsets stay consecutive, both bounds hold and as much of the tail as they allow is retained |
| `MutationLog.Log.ReplayFrom` | src/cluster/replication.rs:527-541 | a gap iff part of what was asked was evicted, else exactly the history from that offset on |
| `MutationLog.Log.RecordAt` | src/cluster/replication.rs:542-556 | the arithmetic lookup equals a search through the retained records, and tells a gap from the future |
| `Journal.ParseEntries` | src/cluster/replication.rs:453-475 | the reading loop computes the recursive reading of the file, torn and oversized entries included |
| `Journal.ReadBack` | src/cluster/replication.rs:319-338 | a journal reads back as the records written, in order, or fails if one is not acceptable |
| `Journal.ReadsIff` | src/cluster/replication.rs:453-475 | exactly what the reading loop accepts: entries of carriable records and less than a length prefix after them |
| `Journal.LittleEndianAt` | src/cluster/replication.rs:319-338 | the byte at each position of a length prefix, least significant first |
| `Journal.WrittenCount` | src/cluster/replication.rs:319-338 | nothing is lost on the way to the file iff every record is within the limits |
| `Journal.Coordinator.constructor` | src/cluster/replication.rs:341-348 | an empty log, no journal |
| `Journal.Coordinator.Append` | src/cluster/replication.rs:349-364 | always succeeds and answers the record's offset; the record joins history and journal, or the journal skips it over the limits |
| `Journal.Coordinator.OpenJournal` | src/cluster/replication.rs:428-497 | creates a missing file; refuses a short header, another format and a journal of another non-zero identity, each with its error; accepts an existing file iff its header and every entry do; failure changes nothing; success replays it into an empty log |
| `Journal.Coordinator.Replay` | src/cluster/replication.rs:477-483 | replaying records that are never behind restores them all with offsets 1, 2, 3, ... |
| `Recovery.Live` | src/cluster/replication.rs:349-364 | through any appends and restarts, log and file are those of the life, and a restart fails exactly when it does |
| `Journal.CanonicalFit` | src/cluster/replication.rs:510-526 | the bounds retain the same tail of a history and of what it reads back as |
| `Recovery.FileReads` | src/cluster/replication.rs:453-483 | the file of any life reads back as the records written, none behind its place, however often offsets were given out again |
| `Recovery.RestartRestoresIff` | src/cluster/replication.rs:428-497 | a restart gives the same next offset iff every record appended since the last one is one the journal writes and accepts, and then the same history |
| `Recovery.RecoverAfterCrash` | src/cluster/replication.rs:428-497 | the same through the coordinator, with retained records, byte count and journal restored, for any life before |
| `Replica.ReplicaApplier.TryApply` | src/cluster/replication.rs:278-292 | Ok(false) iff the offset is already applied, a gap is refused, Ok(true) iff it is the next and the effect succeeds, else the effect's error; nothing changes but by Ok(true) |
| `Replica.Receive` | src/cluster/server.rs:244-407 | the receive loop, entries through the applier and snapshots resetting it: after any events the store is the fold of as many mutations as the applier's offset says |
| `Replica.EventFaithful` | src/cluster/server.rs:244-273 | each event, delivery of any record or snapshot, keeps the replica equal to the fold of a prefix |
| `Replica.EveryRunIsFaithful` | src/cluster/server.rs:341-407 | under every schedule the store is the fold of the first `applied_offset` mutations, each applied once and in order |
| `Replica.DeliverAnswers` | src/cluster/server.rs:244-273 | what a delivery does: old records are confirmed again and change nothing, the next is applied or its error changes nothing, a record past a gap is neither applied nor confirmed |
| `Replica.OtherAnswers` | src/cluster/server.rs:360-400 | what a snapshot and an append do |
| `Replica.ConfirmedIsApplied` | src/cluster/server.rs:244-273 | in every run, a delivery is confirmed only if the replica then has the record |
| `Replica.RedeliveryIsIdle` | src/cluster/replication.rs:268-292 | delivering an applied record again changes nothing |
| `Replica.CatchUp` | src/cluster/server.rs:244-273 | delivering what is missing in order ends at the primary's state |
| `Crc16.ShiftBytesLinear` | src/cluster/hash.rs:83-111 | xor distributes over any number of zero bytes |
| `Crc16.BlockIsXorOfContributions` | src/cluster/hash.rs:59-79 | eight bytes contribute independently, each as itself followed by the zero bytes behind it |
| `Crc16.SliceStepAbsorbsBlock` | src/cluster/hash.rs:59-79 | eight table lookups absorb eight bytes |
| `Crc16.NextTable` | src/cluster/hash.rs:100-109 | table k is the byte followed by k zero bytes |
| `Crc16.BuildFirstTable` | src/cluster/hash.rs:84-99 | the bit loop fills the first table |
| `Crc16.BuildTables` | src/cluster/hash.rs:83-111 | all eight tables hold what their index says |
| `Crc16.ComputeCrc16` | src/cluster/hash.rs:59-79 | eight bytes at a time, then one, computes the bit-by-bit CRC, which is the remainder of the message on division by the generator |
| `Crc16.CrcIsRemainder` | src/cluster/hash.rs:59-79 | a word is the code of a message iff it is the remainder of the message times x^16 on division by x^16 + x^12 + x^5 + 1 |
| `Crc16.RemainderUnique` | src/cluster/hash.rs:59-79 | that division has one remainder of sixteen bits |
| `Crc16.CrcLinear` | src/cluster/hash.rs:59-79 | messages of one length and their codes are added alike |
| `Crc16.SlotIsRemainder` | src/cluster/hash.rs:41-57 | the slot of a key is that remainder, of its tag or of the whole key, modulo 16384 |
| `Crc16.TagIsHashed` | src/cluster/hash.rs:46-57 | only the first non-empty tag is hashed |
| `Crc16.HashtagIsTagOrKey` | src/cluster/hash.rs:46-57 | nothing else is ever cut out |
| `Crc16.SameTagSameSlot` | src/cluster/hash.rs:40-44 | keys with one tag share a slot |
| `Slots.RemoveSlot` | src/cluster/state.rs:346-363 | the loop computes the range list without the slot |
| `Slots.RemovedCount` | src/cluster/state.rs:346-363 | that slot is covered no more, every other exactly as often as before |
| `Slots.CompactRanges` | src/cluster/state.rs:365-379 | the loop joins adjacent neighbours, all of them |
| `Slots.NormalizedCount` | src/cluster/state.rs:365-379 | sorting and joining change no slot's coverage |
| `Slots.CompactedIsApart` | src/cluster/state.rs:364-379 | after joining, no range starts right after the one before it |
| `Slots.SortedSorts` | src/cluster/state.rs:265 | sorting by start keeps the same ranges |
| `Topology.Owner` | src/cluster/topology.rs:31-37 | the first primary that lists the slot, or none if no primary does |
| `Topology.MarkRange` | src/cluster/topology.rs:49-60 | marks one range's slots, stopping iff one was marked already |
| `Topology.IsComplete` | src/cluster/topology.rs:39-63 | true iff each of 16384 slots lies in exactly one range of one primary |
| `Topology.BuildTable` | src/cluster/topology.rs:110-139 | each entry is the first primary of 16-bit index that lists the slot, or the sentinel |
| `Topology.TableMatchesScan` | src/cluster/topology.rs:143-148 | table and scan agree on a slot iff it has no owner or one of index below 65535 |
| `ClusterEdits.OneOwner` | src/cluster/state.rs:111-137 | on well-formed lists no slot has two owners |
| `ClusterEdits.CompleteIffOwned` | src/cluster/topology.rs:39-63 | on well-formed lists complete means every slot has an owner |
| `ClusterEdits.MovedIsWellFormed` | src/cluster/state.rs:111-137 | moving one slot keeps ids unique, ranges ordered and listings disjoint |
| `ClusterEdits.MovedOwner` | src/cluster/state.rs:111-137 | who owns each slot after a move |
| `ClusterEdits.MovesExactlyOneSlot` | src/cluster/state.rs:111-137 | exactly one slot changes hands iff the target was a primary or listed nothing else |
| `ClusterEdits.MovedKeepsComplete` | src/cluster/state.rs:111-137 | a move keeps a complete topology complete |
| `ClusterEdits.CommitMoves` | src/cluster/state.rs:120-136 | committing a migration is such a move; ids and addresses stay, and only source and target get the new epoch |
| `ClusterEdits.AssignMoves` | src/cluster/state.rs:242-270 | SETSLOT NODE is such a move, from whoever lists the slot; ids and addresses stay, and only the target gets the new epoch |
| `ClusterEdits.PromoteIsWellFormed` | src/cluster/state.rs:219-229 | failover keeps the list well formed |
| `ClusterEdits.PromoteMovesFailedSlots` | src/cluster/state.rs:219-229 | exactly the failed primary's slots change hands, to the replica |
| `ClusterEdits.PromoteChanges` | src/cluster/state.rs:219-227 | the failed primary keeps its role and addresses and loses its slots, the replica takes over its very ranges, no other node changes |
| `ClusterEdits.PromoteKeepsComplete` | src/cluster/state.rs:219-229 | failover keeps a complete topology complete |
| `ClusterEdits.RelistedIsWellFormed` | src/cluster/state.rs:288-322 | relisting a node with free, distinct slots keeps the list well formed |
| `ClusterEdits.RelistedOwner` | src/cluster/state.rs:288-322 | only that node gains or loses slots |
| `ClusterEdits.RelistedChanges` | src/cluster/state.rs:288-330 | only that node's list and epoch change |
| `ClusterEdits.AddedSlotsCount` | src/cluster/state.rs:288-309 | adding covers exactly the added slots once more |
| `ClusterEdits.RemovedAllCount` | src/cluster/state.rs:312-322 | deleting uncovers exactly the named slots |
| `ClusterEdits.ForgetIsWellFormed` | src/cluster/state.rs:325-332 | forgetting a node keeps the list well formed |
| `ClusterEdits.MeetIsWellFormedIff` | src/cluster/state.rs:274-284 | meeting a node keeps the list well formed iff its slots are ordered, distinct and free |
| `Failure.FailureTracker.constructor` | src/cluster/failure.rs:25-31 | quorum at least one, no evidence |
| `Failure.FailureTracker.Expire` | src/cluster/failure.rs:58-63 | drops exactly the evidence not renewed within the retention time |
| `Failure.FailureTracker.Report` | src/cluster/failure.rs:33-45 | the reporter joins those on file that are still recent, every other recent entry stays; confirmed iff the reporters on file reach the quorum, and then that many distinct nodes accused the target at that epoch |
| `Failure.FailureTracker.ReportAll` | src/cluster/failure.rs:33-64 | over any sequence of reports, each is confirmed iff a quorum of distinct nodes named its target and epoch since the last gap longer than the retention time |
| `Failure.FailureTracker.CountedAccusers` | src/cluster/failure.rs:47-52 | a count never exceeds the distinct accusers |
| `Failure.BestIsBest` | src/cluster/state.rs:210-218 | none iff no replica of the failed node; else the chosen one has the greatest epoch and, on ties, the smallest id |
| `Failure.IdLeIff` | src/cluster/state.rs:217 | the order of ids: a prefix first, otherwise the first difference decides |
| `ClusterState.ClusterState.constructor` | src/cluster/state.rs:24-44 | a valid state whose table matches the topology |
| `ClusterState.ClusterState.Install` | src/cluster/state.rs:82-88 | topology, table and version change together |
| `ClusterState.ClusterState.BeginSlotMigration` | src/cluster/state.rs:90-101 | recorded iff the target is a known node with a usable name and the slot is owned |
| `ClusterState.ClusterState.FinishSlotMigration` | src/cluster/state.rs:103-109 | the slot is no longer in transit and the flag says whether any is |
| `ClusterState.ClusterState.MigratingTarget` | src/cluster/state.rs:139-144 | the flag short-cut never hides a migration |
| `ClusterState.ClusterState.BeginSlotImport` | src/cluster/state.rs:146-153 | recorded iff the source's name is usable |
| `ClusterState.ClusterState.IsImporting` | src/cluster/state.rs:163-168 | the flag short-cut never hides an import |
| `ClusterState.ClusterState.FinishSlotImport` | src/cluster/state.rs:155-161 | the slot is no longer imported |
| `ClusterState.ClusterState.CommitSlotMigration` | src/cluster/state.rs:111-137 | happens iff pending, owned and the target known; then a move of that slot with the next epoch; the migration ends either way |
| `ClusterState.ClusterState.AssignSlot` | src/cluster/state.rs:242-270 | happens iff the target is known and does not list the slot; then a move of that slot |
| `ClusterState.ClusterState.PromoteReplica` | src/cluster/state.rs:193-230 | happens iff the quorum is on file, the epoch is current, the node is a primary and has a replica; the best replica takes over, the epoch rises, and the promotion is backed by quorum-many distinct accusers |
| `ClusterState.ClusterState.ReplaceTopology` | src/cluster/state.rs:177-189 | taken iff valid and of a later epoch |
| `ClusterState.ClusterState.RecordFailure` | src/cluster/state.rs:232-234 | one more report on file, with what was recent before it; past promotions stay backed |
| `ClusterState.ClusterState.MeetNode` | src/cluster/state.rs:274-284 | joins iff its id is new; no slot is listed twice afterwards iff it brought no overlap |
| `ClusterState.ClusterState.AddSlots` | src/cluster/state.rs:288-309 | all slots distinct and listed nowhere, or nothing changes |
| `ClusterState.ClusterState.DelSlots` | src/cluster/state.rs:312-322 | the node lists the slots no more |
| `ClusterState.ClusterState.ForgetNode` | src/cluster/state.rs:325-332 | exactly that node goes |
| `ClusterState.ClusterState.ResetSlots` | src/cluster/state.rs:335-343 | that node lists nothing; the epoch rises even if it is unknown |
| `ClusterState.CheckValid` | src/cluster/topology.rs:65-75 | lengths, range order and unique ids, by a seen-set |
| `ClusterState.TakeFromAll` | src/cluster/state.rs:253-257 | the loop takes the slot from every node that lists it |
| `ClusterState.ListSlots` | src/cluster/state.rs:291-304 | the loop succeeds iff the slots are distinct and free |
| `ClusterState.RemoveSlots` | src/cluster/state.rs:315-317 | the loop removes each slot |
| `ClusterRuns.Step` | src/cluster/state.rs:90-343 | every operation as one atomic step: what it does to topology, migrations, imports and evidence, and that it keeps the invariant |
| `ClusterRuns.Run` | src/cluster/state.rs:90-343 | over every run: each operation does to the topology what it says, epochs never fall, no slot has two owners at any point, transfers keep completeness |
| `Routing.TargetIsCommonSlot` | src/cluster/routing.rs:173-217 | a command has a slot iff it has a key and all its keys hash there |
| `Routing.KeysDecide` | src/cluster/routing.rs:32-50 | both routers answer Local without clustering, keys or arguments, and CrossSlot iff two key arguments hash to different slots |
| `Routing.SlotDecides` | src/cluster/routing.rs:136-165 | both routers' answers for a command whose keys share a slot, import and migration included |
| `Routing.SnapshotMatchesScan` | src/cluster/routing.rs:32-60 | for every command table-based and scan-based routing agree iff the slot is not diverted by a migration or an import |
| `Routing.SingleKeyAgrees` | src/cluster/routing.rs:113-132 | the single-key short cut decides the same |
| `Routing.AnswersKnown` | src/cluster/routing.rs:136-170 | what a node answers, in terms of the slot's owner |
| `Routing.LocalWithoutAsking` | src/cluster/routing.rs:136-170 | without ASKING a node answers Local iff it owns the slot and is not moving it to a known node |
| `Routing.RedirectsReachHolder` | src/cluster/routing.rs:136-170 | from any node two redirects reach the node that holds the slot |
| `Routing.RedirectsNeverEnd` | src/cluster/routing.rs:136-170 | an unsettled slot is never answered, however many redirects are followed |
| `Routing.RedirectsEndIffSettled` | src/cluster/routing.rs:136-170 | redirects end iff the slot is assigned and its migration target, if known, is importing it |
| `Notifier.ProducerStepKeepsChannel` | src/pubsub/slot.rs:61-100 | each step of `notify`, `complete` and `notify_fanout` keeps the protocol invariant |
| `Notifier.WorkerStepKeepsChannel` | src/pubsub/slot.rs:79-120 | each step of the drain loops keeps it |
| `Notifier.StepKeepsInv` | src/pubsub/slot.rs:61-174 | every step keeps it on every channel |
| `Notifier.NoLostWakeUp` | src/pubsub/slot.rs:61-174 | in every interleaving an idle worker with no producer mid-call and a non-empty queue has a wake outstanding; nothing pushed is lost, repeated or reordered |
| `Notifier.PushRuns` | src/pubsub/slot.rs:61-103 | an undisturbed push ends with the entry last in its queue, the flag set, and a wake if the flag was clear |
| `Notifier.EverythingIsDelivered` | src/worker.rs:152-198 | once producers are quiet the worker alone delivers everything and sleeps |
| `SubSlot.StepKeepsInv` | src/pubsub/slot.rs:204-227 | every step of pushes and a drain keeps the invariant |
| `SubSlot.NoLostNotification` | src/pubsub/slot.rs:204-227 | with nobody mid-call a non-empty queue was notified since the last drain began; frames leave in order |
| `SubSlot.PublishRuns` | src/pubsub/slot.rs:204-211 | an undisturbed publish ends with the frame last, the flag set, and the token notified if the flag was clear |
| `SubSlot.DrainTakesShortestPrefix` | src/pubsub/slot.rs:216-227 | a drain takes the shortest non-empty prefix that fills the buffer, and notifies again iff frames are left |
| `SubSlot.WholeDrain` | src/pubsub/slot.rs:216-227 | the same from an idle drainer, through the begin of the drain |
| `Geo.WordHolds` | src/storage/geo.rs:306-307 | an index of 26 bits and its word determine each other |
| `Geo.InterleaveHalves` | src/storage/geo.rs:287-294 | the five mask steps interleave: dropping two bits of a code drops one of each coordinate |
| `Geo.InterleaveBits` | src/storage/geo.rs:309 | the two lowest bits are latitude's and longitude's, and a code has 52 bits |
| `Geo.Uninterleave` | src/storage/geo.rs:287-309 | taking a code apart gives back both coordinates |
| `Geo.Decode` | src/storage/geo.rs:312-337 | 52 halvings end at the centre of the cell the code names |
| `Geo.EncodeUndoesDecode` | src/storage/geo.rs:296-337 | encode undoes decode for every 52-bit code |
| `Geo.EncodePlaces` | src/storage/geo.rs:296-310 | longitude is on the odd places of a code, latitude on the even ones |
| `Geo.OffAxis` | src/storage/geo.rs:296-310 | a point off an axis falls in its first or last cell |
| `Geo.WithinHalfCell` | src/storage/geo.rs:303-307 | the cell's centre is within half a cell of a point iff the point is on the axis, clamped end included |
| `Geo.DecodeNearEncoded` | src/storage/geo.rs:296-337 | decoding an encoded point errs by at most half a cell on an axis iff the point is in range there |
| `Bitfield.Entry.SetBit` | src/storage/bitmap.rs:5-49 | WRONGTYPE leaves the value alone; else the old bit is returned, exactly that bit changes, and the string grows just enough |
| `Bitfield.Entry.GetBit` | src/storage/bitmap.rs:51-69 | the bit, zero past the end, when absent and when expired |
| `Bitfield.Entry.Get` | src/commands/bitmap.rs:245-256 | the field's bits, most significant first, sign-extended below 64 bits |
| `Bitfield.Entry.Set` | src/commands/bitmap.rs:258-264 | the field holds the value's low bits and no bit outside it changes |
| `Bitfield.Entry.IncrBy` | src/commands/bitmap.rs:163-204 | below 64 bits the reply is what the policy promises for the true sum and what the field then stands for; no reply, no write; no other bit changes |
| `Bitfield.ReadingIsMeaning` | src/commands/bitmap.rs:251-255 | what is read is what the field stands for, except a u64 with its top bit set |
| `Bitfield.ReadAfterSet` | src/commands/bitmap.rs:245-264 | a value set is read back reduced to the width, two's complement or modular |
| `Bitfield.FieldOfBytes` | src/commands/bitmap.rs:245-256 | a field of whole bytes is those bytes as a number, first byte and first bit highest |
| `Bitfield.Limits` | src/commands/bitmap.rs:285-300 | the shifted limits are those of the type, up to width 64 |
| `Bitfield.IncrementIsIdeal` | src/commands/bitmap.rs:163-204 | widths 1 to 63: WRAP reduces, SAT clamps and FAIL refuses by the true sum, although the code adds in 64 bits |
| `Bitfield.ReplyIsStored` | src/commands/bitmap.rs:163-204 | the reply is what the field then stands for |
| `Bitfield.Signed64` | src/commands/bitmap.rs:266-290 | i64: WRAP and SAT are right |
| `Bitfield.Signed64Fail` | src/commands/bitmap.rs:184-203 | i64: FAIL is right iff the sum fits |
| `Bitfield.Unsigned64Wrap` | src/commands/bitmap.rs:278-283 | u64: WRAP stores the right residue |
| `Bitfield.Unsigned64Sat` | src/commands/bitmap.rs:292-300 | u64: SAT is right iff field and sum stay below 2^63, or the sum is zero |
| `Bitfield.Unsigned64Fail` | src/commands/bitmap.rs:184-203 | u64: FAIL is right iff the sum stays below 2^63 |
| `Bitfield.FullWidthFails` | src/commands/bitmap.rs:184-203 | the maximum of i64 and of u64, incremented under FAIL, wraps and is written |
| `ScanCursor.CursorRoundTrip` | src/storage/scan.rs:16-38 | a position survives packing iff shard and slot fit in 12 and 20 bits |
| `ScanCursor.ScanShard` | src/storage/scan.rs:22-41 | the inner loop collects the matching live keys of the slots it passes, up to the count |
| `ScanCursor.Scan` | src/storage/scan.rs:5-48 | one call returns the matching live keys between its cursor and where it stopped, which is further on, at most the count; cursor 0 at the end of the table |
| `ScanCursor.AfterCall` | src/storage/scan.rs:30-40 | an unfinished call leaves a nonzero cursor that leads back to where it stopped |
| `ScanCursor.ScanAll` | src/storage/scan.rs:5-48 | calling until cursor 0, with any counts, ends and collects every matching live key, once if no two slots hold one key |
| `ScanCursor.RestMembers` | src/storage/scan.rs:19-45 | a key is collected iff some slot holds it, live and matching |
| `ScanCursor.RestDistinct` | src/storage/scan.rs:19-45 | and once, if no two slots hold one key |
| `Histogram.EdgeIsClose` | bench/hist.go:26-45 | a bucket's edge is at or above the sample and at most one part in 32 above it iff the sample is below 2^46 |
| `Histogram.IndexUndoesValue` | bench/hist.go:26-45 | the edge of a bucket is in that bucket |
| `Histogram.IndexMonotone` | bench/hist.go:26-35 | larger samples never go to an earlier bucket |
| `Histogram.Rank` | bench/hist.go:72-75 | the whole part of that percentage of the total, below 100 the exact floor, from 100 on the last rank |
| `Histogram.RankExists` | bench/hist.go:68-84 | there is a sample at every rank below the total |
| `Histogram.RankUnique` | bench/hist.go:68-84 | and only one |
| `Histogram.BucketOfRank` | bench/hist.go:76-82 | the running count passes a rank at exactly the bucket of the sample at that rank |
| `Histogram.Hist.constructor` | bench/hist.go:19-24 | no samples |
| `Histogram.Hist.Record` | bench/hist.go:47-55 | counts, total, maximum and wrapped sum describe the samples with this one added, a negative one as zero |
| `Histogram.Hist.Merge` | bench/hist.go:57-66 | they describe both histograms' samples together, also when merging with itself |
| `Histogram.Hist.Percentile` | bench/hist.go:68-84 | not below the exact sample at that rank iff it is below 2^46, then at most one part in 32 above it; else 2^46 - 1 |

## Left out

- The query-string parser of src/search/query.rs: conditions are taken as values.
- BM25 scores, vector graphs and distances, haversine, HyperLogLog estimates.
- The command tables of src/cluster/routing.rs that find a command's key pattern: the pattern is an input.
- Lower casing, globbing and number parsing of search terms: functions given to the model.
- Keys with a time to live in searches: `filter_index` declines while there are any.
- Document ids wrapping at 2^32.
- `ReplicationStream`, the replication message codec, snapshot encoding and the failure-report codec.
- Failure of a snapshot load on a replica, which leaves an emptied store at the old offset: a snapshot is one successful step.
- Reversed slot ranges: every range in the repository is made by `SlotRange::new`, which refuses them.
- Torn writes: the journal file holds whole entries of every finished append.
- The release of the topology write guard between reading and installing: every `ClusterState` method is one atomic step.
- Sockets, event loop, io_uring, threads, fsync, configuration, authentication and text replies.
- Relaxed memory ordering: all protocols are taken under sequential consistency with atomic queues.
- The frame cache of src/pubsub/frame.rs and the subscription tables.
- `Store` and its hash map: a keyspace is a map, a table of slots, or one key's value.
- ClusterRuns.Run: ownership is unique over runs whose whole-topology and whole-node operations bring no overlap, because the code does not check for one.
- DirtyRace.GuardedRunsAreSound: no drain or reset begins while a `mark_all` has yet to clear the key's shard, because otherwise the claim is false.
- SearchHistory.SearchState.FilterIndex: one atomic step, like every method of `SearchState`; `SearchRace` interleaves it, on write counts in place of documents.
- SearchRace.FastPathIff: a mark, a drain and a clean check are one step each; `DirtyRace` splits them.
- Topology.IsComplete: the bit set of 64-bit words is an array of booleans.
- Bitfield.Entry.Set: does not model offsets that wrap at 2^64, because such a string could not be held in memory.
- Histogram.Hist.Record: does not model more than 2^64 samples; counts are unbounded.
- Histogram.Hist.Percentile: the percentage is an exact non-negative real, so rounding of `p / 100 * total` is not modelled.
- Geo.Encode: coordinates are exact reals, so rounding of doubles is not modelled.
- Notifier.EverythingIsDelivered: failures of the operating system's waker are not modelled.
