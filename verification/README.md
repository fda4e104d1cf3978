# Verified model of the jrSOCtriage engines

jrSOCtriage reads security alerts from a growing file, drops repeats, keeps per-rule frequency
counts, anonymizes prompts, asks language models for verdicts and limits what it escalates. Several
of its parts are stateful engines that stand in for a simple mathematical object: a table that is
written twice per window but read as if it held every alert, a reader that is interrupted and
restarted but delivers each line once, an alias table that is repaired while it is in use, a log
that is pruned as if nobody could tell. This project models those engines in Dafny and proves that
they are what they stand in for, over every input and every run, or states exactly when they are.

`dafny verify dfyconfig.toml` checks everything.

## How it is organised

- `Dedup.dfy`, `DedupRuns.dfy`: the silence windows of `dedup.py`, and whole runs of them.
- `AlertHistory.dfy`, `CloseWriter.dfy`: the history table and the asynchronous close writer of `database.py`.
- `Ledger.dfy`, `LedgerBalance.dfy`, `Delivery.dfy`, `SmoothRuns.dfy`: cache, workers, writer and table as one
  state machine; conservation of counts; asynchronous against synchronous closing; what the baseline query reads.
- `Escalations.dfy`: the lazily pruned rate-limit counters and maintenance flags of `database.py`.
- `TailReader.dfy`, `TailReaderRuns.dfy`: the tailing reader of `ingest.py`, one batch and whole runs.
- `IpAliases.dfy`, `NamedAliases.dfy`: the alias tables of `anonymize.py`; `Substitution.dfy`, `Restoration.dfy`,
  `Spelling.dfy`: its substitution engine, the way back, and what letter case does to both.
- `LoginLimiter.dfy`, `ConfigMerge.dfy`: the login limiter and the settings merge of `interface.py`.
- `TtlCache.dfy`: the bounded cache of `enrich.py`. `Verdict.dfy`: the response parser of `llm_caller.py`.
  `LogCondenser.dfy`: the run-length condenser of `graylog_fetch.py`.
- `Sums.dfy`, `Text.dfy`, `Wrappers.dfy`: sums over sequences, characters and numerals, optional values.

Objects whose methods update their fields are classes; each method is proved against a function of
the old state, and the lemmas about runs speak of those functions. Protocols between threads are
state machines with one atomic action per step. Time is a real number. A clock reading is taken
before a lock, so readings may run backwards in lock order: the dedup and ledger results hold for
any bound `skew` on that, and a monotone clock is the case 0.

## Where the code does not do what it promises

Each item has an input or run that shows it and, except where said, the exact condition.

- `NamedAliases.DomainsFreshExactly`, `NamedAliases.HostsFreshExactly`: a minted domain or host alias can equal one in
  the file, exactly under a condition on the file. `anonymize.py:745-746` says the counter prevents collisions.
- `Restoration.OccurrenceMatters`, `Restoration.BeginningMatters`: an alias that stands in the text, or that begins
  another original, is "restored" where it was not inserted. `Restoration.StageExactly` says exactly when one step of
  the restoration is right, if occurrences do not overlap insertions; `Restoration.LegibleRoundTrip` and
  `Restoration.PlainRoundTrip` give conditions on text and table under which all of it is. They are sufficient ones:
  `Restoration.StraysMayCancel` is a text whose stray restorations mend each other.
- `Spelling.SpellingsMerge`: a host or user that occurs in two spellings comes back in one. `Spelling.SpelledExactly`:
  where aliases cannot be read into the text, restoring gives it back exactly if every alias stands for one spelling.
- `Spelling.OddSpellingKept`: `anonymize.py:852-855` says that a match always has an alias. For keys of English letters it
  has one exactly if it holds none of three letters that fold to English ones (`Spelling.ResolvedExactly`).
- `CloseWriter.CleanStopDrains`: `database.py:619-620` says a clean shutdown loses no close. With a close waiting, it
  loses one exactly when the stop falls between the writer's timed-out wait and its flag test, or on a writer that is
  leaving already or fails to connect.
- `TailReaderRuns.AppendRecognised`: a file shorter than the head signature that grows is taken for a rotated one.
- `IpAliases.FullSubnetServesKnown`, `IpAliases.StaleFromFile`: a call that needs an alias in a full subnet ends in an
  error, and an alias that has become a known address by then is still served. `IpAliases.IpTable.LoadIpAliases` says
  before which failing calls that happens: from a table in order, exactly those that were asked for an address without a
  value that is the alias of an original that parses. `IpAliases.LaterCall` says exactly which later call mends the
  value: one that takes up the alias that the entry has by then.
- `LoginLimiter.ZeroReadingUnguarded`: a stored time of 0 means "no attempt".
- `Verdict.ReasonReadBackExactly`, `Verdict.ReasonCutAtMarker`: a failure reason with a line, other than its first, that
  begins with the last field's marker is cut off there.
- `Verdict.FailureUnderstood`, `Verdict.LabelTakesOver`: a reason that holds the last field's label, exactly then, takes
  the place of that field's text.
- `Escalations.SlotsShared`: a host named "__all__" shares its budget with all escalations of the rule by scope "rule";
  no other host shares one with them (`Escalations.BudgetsApart`).
- `Escalations.GraceExact`: rows are kept long enough exactly if no call takes more than a day between its clock readings.

## Model

| member | source | states |
|---|---|---|
| Dedup.WindowNamesUnique | dedup.py:126-157 | a window's (key, timestamp) name differs from its predecessor's for every cache and time iff the silence period is positive |
| Dedup.DedupCache.NoteDecision | dedup.py:60-75 | bumps exactly one of the two decision counters |
| Dedup.DedupCache.IsDuplicate | dedup.py:206-266 | the decision and the new cache as functions of the old cache; a timestamp is handed out iff the alert passes, and it is the one the new window carries; exactly one decision counter bumped |
| Dedup.DedupCache.GetLastSeen | dedup.py:269-292 | first and last sight of a known key, nothing for an unknown one |
| Dedup.DedupCache.PruneCache | dedup.py:307-358 | the popping loop leaves exactly the windows seen since the cutoff and returns each other window's payload once |
| Dedup.DedupCache.FlushAllWindows | dedup.py:361-389 | empties the cache and returns every window's payload exactly once |
| DedupRuns.PruneTransparent | dedup.py:307-358 | in any interleaving, no prune schedule with a long enough horizon changes a decision, and re-anchored, pruned and flushed closes together are the multiset of the never-pruned run |
| DedupRuns.AnchorIsLatestPass | dedup.py:206-266 | a key's anchor is its latest passing arrival |
| DedupRuns.GreedyDecisions | dedup.py:206-266 | an arrival passes iff it comes at least the silence period after every earlier passing arrival of its key: the greedy selection, prunes included |
| DedupRuns.WindowIsHistory | dedup.py:206-266 | in any run, pruned or not, a window in the cache carries the times of its key's latest pass and latest arrival, and counts the arrivals since that pass |
| DedupRuns.NamesMatch | dedup.py:206-266 | in any run the names handed to passing arrivals are exactly the names under which windows have closed or would close in a final flush |
| DedupRuns.KeptExactly | dedup.py:307-358 | in any run a key is in the cache iff it has arrived and no prune since its latest arrival found that too old |
| DedupRuns.HorizonExact | dedup.py:307-358 | for every horizon and skew: pruning changes no run's decisions iff the horizon outlasts each silence period that a reading can fall into by twice the skew; with a monotone clock and positive periods, iff it is at least each of them |
| DedupRuns.PruneHorizonExact | main.py:2287-2295 | the horizon the main loop asks for is safe for readings that run back by a skew iff twice that is at most an hour less the largest silence period S, or at most S if S is more than half an hour |
| DedupRuns.EarlyPruneReescalates | dedup.py:307-358 | with any shorter horizon, at any skew, there is a run in which a repeat within the silence period escalates again |
| AlertHistory.SanitizeExactly | database.py:289-315 | a timestamp is kept iff it is at most 30 days older and at most an hour newer than the clock; any other, or none, becomes the clock's |
| AlertHistory.HistoryStore.ShouldPrune | database.py:275-286 | true iff more than 300 seconds have passed since it was last true, and then restarts the interval |
| AlertHistory.HistoryStore.RecordWindowOpen | database.py:394-439 | one row of count 1 under the sanitized timestamp (as `SanitizeExactly` says), with the delete of rows older than 14 days when one is due, which restarts the prune interval; a failed transaction leaves the rows alone, but one that fails after the insert has restarted the interval as well |
| AlertHistory.HistoryStore.RecordWindowClose | database.py:442-472 | sets the count of exactly the rows of that identity; a count of at most 1 writes nothing |
| AlertHistory.HistoryStore.CalculateBaseline | database.py:660-676 | one pass over the rows adds up the four sums that weigh each row by its rule, host and age |
| Ledger.ReachableInv | database.py:371-391 | in every reachable state windows have unique names, rows, closes in hand and queued closes are distinct, and each stage agrees with where the window's close is |
| Ledger.StepKeepsInv | main.py:257-275 | every step of alert, open, enqueue, apply, prune and flush keeps that invariant |
| LedgerBalance.Conservation | database.py:371-391 | for any choice of windows and any reachable state: table counts, pending opens, extra counts of live, held and queued windows, and recorded losses add up to the number of alerts |
| LedgerBalance.NeverOvercounts | database.py:643-675 | in every reachable state a sum counts no alert older than it asks for |
| LedgerBalance.NeverUndercounts | database.py:643-675 | in every reachable state a sum, with what is still held or was lost of the windows it asks for, covers every alert that came a silence period after its start |
| LedgerBalance.NeverCountedTwice | database.py:643-675 | nor does all that exceed the alerts since its start: nothing is counted, held and lost at once |
| LedgerBalance.BaselineIsHonest | main.py:365-440 | read in any state of the running system, each of the four baseline sums (an hour, a day, a week, 14 days) with what is held and lost lies between the true counts from its start and from one silence period later |
| LedgerBalance.DrainedBrackets | database.py:643-675 | once drained, and with nothing of that rule and host lost in range, the sum does so by itself |
| Delivery.OrderIrrelevant | database.py:475-500 | closes of distinct windows leave the same table in every delivery order |
| Delivery.AsyncRefinesSync | database.py:475-500 | at every moment of a loss-free run, applying the queued closes gives the table of the synchronous scheme |
| Delivery.HandedOver | database.py:514-532 | the ledger's hand-over agrees with the close writer's: queued, dropped or skipped in the one iff in the other |
| SmoothRuns.SmoothLosesOnlyOld | database.py:426-430 | a run without failures or drops loses only rows past the retention cutoff |
| SmoothRuns.SmoothBaseline | database.py:371-391 | at every moment of a run without failures, in any interleaving, the baseline sums with what is still held bracket the true counts to one silence period: nothing is lost |
| SmoothRuns.DrainedBaseline | database.py:371-391 | once drained the sums do so by themselves, and the table is the one of synchronous closing |
| CloseWriter.RunKeepsInv | database.py:535-589 | over any run of producers, starts, stops and the writer thread, accepted closes are the written, held and queued ones in order |
| CloseWriter.EveryCallAccounted | database.py:514-532 | every enqueue is exactly one of skipped, dropped, written, held and queued |
| CloseWriter.DroppedExactly | database.py:514-532 | over any run with any number of restarts, the dropped closes are exactly those with a count above 1 that were handed over while no thread had its connection |
| CloseWriter.StartedIsUp | database.py:592-613 | a thread that is started and connects is up, also after an earlier stop |
| CloseWriter.StaysUp | database.py:535-589 | a thread that is up stays so until it is told to stop, and nothing is dropped meanwhile |
| CloseWriter.StoppedLeaves | database.py:535-589 | a stopped thread leaves after boundedly many steps of its own |
| CloseWriter.CleanStopDrains | database.py:616-636 | every close accepted before a stop is written by the time the thread leaves iff none was waiting or the stop did not fall between its timed-out wait and its flag test, on a thread leaving already, or on one that then fails to connect |
| CloseWriter.StopCanLoseAClose | database.py:556-563 | a concrete run in which a clean stop loses a close |
| Escalations.SlotsShared | database.py:757-776 | two calls have the same counter iff they are for one rule, fall in the same hour, and either both have scope "rule", or neither has and the hosts are equal, or one has and the other is for a host named "__all__" |
| Escalations.BudgetsApart | database.py:757-776 | so for other hosts: one rule, one hour, and either both scope "rule" or neither and equal hosts |
| Escalations.EscalationLog.CheckRateLimit | database.py:763-789 | allowed iff the count kept for that rule, host, scope and hour is below the budget, or the query failed; after any orderly run that is the count of all escalations ever recorded that share the budget |
| Escalations.EscalationLog.RecordEscalation | database.py:792-840 | the upsert in the current slot, and at most once an hour the prune |
| Escalations.PruningUnobservable | database.py:832-840 | after any run on a clock that does not go back, of calls that take up to a day, a check counts every escalation ever recorded that shares its budget, by rule, host, scope and hour as recorded |
| Escalations.RowExactly | database.py:800-840 | in any run a row carries the time of its slot's latest escalation, and is there iff no prune since found that older than 25 hours |
| Escalations.GraceExact | database.py:832-834 | checks after all runs of calls with this grace between their clock readings do so iff the grace is at most a day |
| Escalations.BudgetHolds | database.py:763-829 | attempts checked and recorded one after the other never exceed the rule's hourly budget among those that share it, even when the hour turns between check and record |
| Escalations.SleeperForgotten | database.py:832-840 | for every grace beyond a day there is a call that prunes its own row within its hour |
| Escalations.MaintenanceMode.SetMaintenanceMode | database.py:882-903 | replaces the host's expiry and no other |
| Escalations.MaintenanceMode.ClearMaintenanceMode | database.py:906-916 | forgets exactly that host |
| Escalations.MaintenanceMode.IsInMaintenanceMode | database.py:919-952 | answers from the row before dropping it if expired |
| Escalations.MaintenanceExact | database.py:919-952 | the answer is yes iff the last set or clear of the host in the whole history is a set that has not expired |
| TailReader.AlertReader.ReadAlertsBatch | ingest.py:269-443 | the batch, the new position and the retry map as functions of the file and the old state, through rotation, partial lines, bad JSON and strikes |
| TailReaderRuns.DeliverableExactly | ingest.py:359-443 | an item is on the reference list from a position iff some line that starts there or later ends with a newline at the item's end, its stripped text is not empty and parses to that alert, and the alert's level is at least the minimum |
| TailReaderRuns.DeliverableInOrder | ingest.py:359-443 | the list is in file order, and no line is on it twice |
| TailReaderRuns.RestExactly | ingest.py:359-384 | the reader has nothing to read iff it is at the end, or what is left has no newline and is not blank |
| TailReaderRuns.BatchIsNext | ingest.py:359-415 | whatever is appended later, what was deliverable before the batch is the batch followed by what is deliverable after it |
| TailReaderRuns.BatchLimited | ingest.py:359-366 | a batch holds at most the limit, or one item if the limit is not positive |
| TailReaderRuns.BatchEnds | ingest.py:359-415 | a batch ends only when full, at rest, or at a line on its first to fourth strike |
| TailReaderRuns.BatchKeepsOneStrike | ingest.py:391-415 | the retry map is empty or holds one key, the saved offset, with 1 to 4 strikes |
| TailReaderRuns.BatchProgress | ingest.py:391-415 | a read with a line in front of it moves on or strikes that line once more |
| TailReaderRuns.DeliversReference | ingest.py:286-291 | under any interleaving of appends and reads the deliveries are a prefix of the reference list, in file order and without repeats; each is the alert of a complete line that decodes to a level of at least the minimum, every such line passed is delivered, and all of them at rest |
| TailReaderRuns.FiveReadsMoveOn | ingest.py:324-358 | a complete unread line is passed within five reads |
| TailReaderRuns.FifthReadPasses | ingest.py:391-415 | a line that does not parse is passed iff its strikes and the reads since come to five, whatever is appended |
| TailReaderRuns.CatchesUp | ingest.py:324-358 | after n reads of a file that stays the same the reader is at rest or its backlog, five reads for each byte left less the strikes taken, is n smaller |
| TailReaderRuns.PauseDeliversAll | ingest.py:286-291 | once the writer pauses, more than five reads for each byte left deliver the whole reference list exactly once and in order |
| TailReaderRuns.ResumeAfterItem | ingest.py:273-280 | restarting from a delivered item's offset delivers exactly the items after it |
| TailReaderRuns.ResumeLikeReader | ingest.py:273-280 | restarting from the last item's offset or from the batch's own offset gives the same deliveries |
| TailReaderRuns.AppendRecognised | ingest.py:173-224 | an append is recognised iff the head was recorded at full length or nothing was appended |
| TailReaderRuns.ShortFileDeliveredTwice | ingest.py:173-224 | a short file that grows is delivered again from its beginning |
| TailReaderRuns.FreshStartsAtEnd | ingest.py:198-201 | without a saved position the first read delivers nothing and saves the end of the file, whatever its length |
| TailReaderRuns.PositionResumed | ingest.py:206-224 | a position within a file of the same head, or saved without one, is resumed, and its strikes count on |
| TailReaderRuns.HeadlessResumes | ingest.py:218-224 | a position saved without a head is taken up like one with the file's own head |
| TailReaderRuns.TruncationStartsOver | ingest.py:206-224 | a file shorter than the position is read from its beginning with no strikes carried over |
| TailReaderRuns.RotationStartsOver | ingest.py:173-224 | a rotated file, however short yet, is read from its beginning with no strikes carried over |
| IpAliases.IpTable.GenIpAlias | anonymize.py:661-690 | a drawn alias is unused, in the original's subnet, and marked used; otherwise the exhaustion error |
| IpAliases.IpTable.RepairFor | anonymize.py:406-432 | exactly the entries whose alias is the new address get another alias |
| IpAliases.IpTable.SeedMissing | anonymize.py:396-432 | every missing address is marked used before anything is minted, and no alias equals it any more; on the error, some address now known was an alias in use |
| IpAliases.IpTable.MintMissing | anonymize.py:434-459 | each missing address gets an unused alias, appended to the entries |
| IpAliases.IpTable.LoadIpAliases | anonymize.py:345-463 | after a normal return, from any table: no alias is a known original and aliases are distinct, if that was so before, and the value of an original with one entry changes iff its alias was taken up; from a table in order the lookup grows by exactly the new addresses. On the error readers see the old lookup, and from a table in order a known address is served from it iff the call was asked for an address without a value that was the alias of a parseable original. In every case the table is marked for saving iff it was before or its entries changed |
| IpAliases.IpTable.ScanFile | anonymize.py:284-309 | the lookup is the one the entries stand for and the warm sets hold all originals and aliases |
| IpAliases.IpTable.RepairEntries | anonymize.py:311-332 | the repair pass changes exactly the entries whose alias is an original |
| IpAliases.IpTable.EnsureLoaded | anonymize.py:272-342 | loads once, leaving no alias that is an original; it can fail only for a file that needs a repair |
| IpAliases.IpTable.SnapshotIfDirty | anonymize.py:194-205 | the entries if they changed since the last snapshot, and then clean |
| IpAliases.CallThenFlush | anonymize.py:194-216 | from a saved table, what a call minted or regenerated is in the next snapshot, and there is none iff it changed nothing |
| IpAliases.DerivedExactly | anonymize.py:304-309 | the lookup of a list of entries has exactly the originals with an alias, each with the alias of its last such entry |
| IpAliases.FlushThenReload | anonymize.py:194-216 | flushing a consistent table and reloading it succeeds, rebuilds the same lookup and entries, and repairs nothing |
| IpAliases.FullSubnetServesKnown | anonymize.py:661-690 | from any table in order, a call for an alias in use and an address of a full subnet fails and leaves that alias served though it is a known address; originals stay distinct |
| IpAliases.StaleFromFile | anonymize.py:272-463 | such a table, loaded from a file |
| IpAliases.LaterCall | anonymize.py:396-463 | for an original with one entry, and it keeps only that one: a later call mends the value iff it returns normally and takes up the alias the entry has by then; the new value is that of the entry, newly minted; every other call leaves the known address served |
| IpAliases.LaterCallForOne | anonymize.py:396-463 | a call for one address does iff it is that alias and has no value yet |
| NamedAliases.NextCounter | anonymize.py:741-761 | one above the largest number in use |
| NamedAliases.NextIsLeast | anonymize.py:741-761 | it is 1, or the number below it is in use |
| NamedAliases.IndexOfMinted | anonymize.py:741-761 | the counter reads back the number of every alias it can have produced |
| NamedAliases.UserForms | anonymize.py:509-516 | a name with an "@" gets an address by the domain it names, one with a space a display name, any other a login, each with its number |
| NamedAliases.DomainPartIs | anonymize.py:632-633 | that domain is what stands between the first "@" and the next, or the end |
| NamedAliases.DomainForms | anonymize.py:542-547 | a name in capitals without a dot gets CORPn, one that starts with "ad." ad.corpN.internal, any other corpN.internal |
| NamedAliases.HostForms | anonymize.py:654-658 | numbers up to 26 stand for the letters in order, larger ones for themselves |
| NamedAliases.FirstHostExactly | anonymize.py:561-580 | the first host number is that of the first free letter or, with none free, 27 or one above a number in use |
| NamedAliases.LookupExactly | anonymize.py:495-524 | a lookup under a name, as written or in lower case, gives the alias of the last such entry, and only names of entries give one |
| NamedAliases.Category.LoadUsers | anonymize.py:495-524 | loads once; every waiting entry gets its alias by its form and counter, no other entry changes, the lookup is that of the entries |
| NamedAliases.Category.LoadDomains | anonymize.py:527-556 | likewise for the three forms of domain names |
| NamedAliases.Category.LoadHostsAliases | anonymize.py:559-601 | likewise for hosts, by free letters and then numbers |
| NamedAliases.UsersFresh | anonymize.py:495-524 | minted user aliases differ from each other and from all in the file, whatever it holds |
| NamedAliases.DomainsFresh | anonymize.py:527-556 | minted domain aliases are fresh if no ad.corpN.internal lies ahead of the counter |
| NamedAliases.DomainsFreshExactly | anonymize.py:527-556 | they are fresh for every list of new names iff that is so |
| NamedAliases.HostsFresh | anonymize.py:559-601 | minted host aliases are fresh if all letters are used or no number beyond them is |
| NamedAliases.HostsFreshExactly | anonymize.py:574-595 | they are fresh for every list of new names iff that is so |
| Substitution.WholeWords | anonymize.py:842-845 | a key that begins and ends with word characters matches iff the text spells it there, between the ends of the text or characters of no word |
| Substitution.AsciiWords | anonymize.py:842-845 | of the ASCII characters, those of words are the English letters, the digits and the underscore |
| Substitution.ScanIsLeftmostLongest | anonymize.py:820-860 | with case or without: a cut of the text is the pass's iff it takes each leftmost whole-word match of a key, the longest first, and copies all else |
| Substitution.Substitute | anonymize.py:820-860 | with case or without: the text is rebuilt from exactly that cut, each match by its own alias or by that of its lower case, or copied if it has none; the reverse table gives the last spelling of each alias |
| Substitution.PiecesKeyed | anonymize.py:847-857 | whatever is replaced has a non-empty alias in the table that reverses it |
| Restoration.Deanonymize | anonymize.py:1028-1043 | the aliases restored one after the other in the given order; skipping absent ones makes no difference |
| Restoration.ReplaceStage | anonymize.py:1028-1043 | restoring one alias restores exactly its insertions, if it occurs nowhere else |
| Restoration.CutIsText | anonymize.py:820-860 | the cut's kept characters and matches, joined, are the text |
| Restoration.PiecesAreText | anonymize.py:847-860 | so are the pieces of the pass, with the matches that have no alias copied |
| Restoration.RoundTrip | anonymize.py:1028-1043 | with case or without, restoring a substituted text gives it back, if replaced spellings have distinct aliases and each alias occurs, at its turn, only where inserted |
| Restoration.LegibleIsClean | anonymize.py:1028-1043 | restoring the longest first, that is so at every turn if no alias can be read into the kept text and the replaced originals of the cut, nor across their edges |
| Restoration.LegibleRoundTrip | anonymize.py:1028-1043 | so the round trip holds under that condition, which speaks of the text, the table and the order alone |
| Restoration.PlainRoundTrip | anonymize.py:1028-1043 | in plain terms: if no alias occurs in the text and every replaced key stands between characters no alias holds |
| Restoration.StageExactly | anonymize.py:1038-1041 | restoring one alias takes the text to the next stage iff the alias begins nowhere but where inserted, provided its occurrences do not overlap its insertions |
| Restoration.OccurrenceMatters | anonymize.py:1028-1043 | an alias that was already in the text is restored too |
| Restoration.BeginningMatters | anonymize.py:1028-1043 | an alias that is no word of the text but begins another original is found in it once that one is restored |
| Restoration.StraysMayCancel | anonymize.py:1028-1043 | a text that is restored exactly although an alias, at its turn, occurs where it was not inserted |
| Spelling.CaseKept | anonymize.py:835-837 | with case every match is a key and gets the alias of that key |
| Spelling.LastFoldedFinds | anonymize.py:840 | the folded index holds, for each lower case, the alias of the last key that has it |
| Spelling.ResolvedExactly | anonymize.py:848-855 | without case, for English keys, a match has an alias iff it holds none of the three letters that match an English one but have another lower case |
| Spelling.AliasOfKey | anonymize.py:838-851 | it is that of the matching key, if keys that differ only in case share theirs |
| Spelling.OddSpellingKept | anonymize.py:852-855 | a text that the pattern matches and the pass leaves as it is |
| Spelling.KeysSameWidth | anonymize.py:838-851 | spellings with the same alias have the same length if keys with the same alias have |
| Spelling.SpelledExactly | anonymize.py:1028-1043 | if so, and no alias can be read where it was not inserted, restoring gives the text back iff every alias was inserted for one spelling only |
| Spelling.SpellingsMerge | anonymize.py:1028-1043 | a host in two spellings comes back in one |
| LoginLimiter.Limiter.CheckLoginRateLimit | interface.py:352-380 | locked out, cooling down with the seconds left, or allowed |
| LoginLimiter.Limiter.RecordLoginResult | interface.py:383-420 | the bucket's new record and exactly the stale buckets dropped (`ForgottenExactly`) |
| LoginLimiter.RefusedExactly | interface.py:352-420 | after any interleaving of any buckets, an attempt is locked out iff the bucket's third failure, counted since its last success and last lock and as far as pruning kept the count, was admitted less than 180 seconds ago; else it cools down iff one was admitted less than 4 seconds ago; else it is allowed |
| LoginLimiter.LockedAfterThree | interface.py:332-338 | a lockout needs three admitted failures since the last success, the latest less than 180 seconds ago: two slips are never penalized |
| LoginLimiter.FewLockedExactly | interface.py:383-420 | with up to 256 buckets, an attempt is locked out iff the admitted failures since the last success are a positive multiple of three and the latest is less than 180 seconds ago |
| LoginLimiter.WaitIsOver | interface.py:366-380 | a lockout is not over before the reported seconds have passed, and is a second later; a cooldown is over once they have passed, and not more than a second before |
| LoginLimiter.ForgottenExactly | interface.py:412-420 | a result forgets another bucket iff the table then holds more than 256, that bucket is not locked and its last attempt is more than 360 seconds ago; the others keep their records |
| LoginLimiter.FourFailuresSpanLockout | interface.py:335-338 | four admitted failures of a bucket without a success among them span at least the lockout period, in any interleaving of buckets, despite pruning |
| LoginLimiter.CooldownHolds | interface.py:352-380 | two admitted attempts of a bucket are at least the cooldown apart, in any interleaving of buckets, despite pruning |
| LoginLimiter.ZeroReadingUnguarded | interface.py:352-380 | an attempt is guarded iff its recorded time is positive |
| ConfigMerge.DeepMerge | interface.py:5457-5474 | the loops compute the merge; it fails exactly for an object over a non-empty default that is none |
| ConfigMerge.WholeDocuments | interface.py:5457-5474 | on any two documents: no user value leaves the defaults, a value that is no object stands, an object is merged path by path into an object or an empty default, and over any other default it fails |
| ConfigMerge.MergedByPaths | interface.py:5457-5474 | what the merged document holds at any path: the user's value, the merge of two objects, or the default where the user leaves the path free |
| ConfigMerge.UserWins | interface.py:5458 | every user leaf keeps its value |
| ConfigMerge.DefaultsFill | interface.py:5457-5474 | where the user gives nothing, a default is present iff no user value shadows it |
| ConfigMerge.MergeSelf | interface.py:5457-5474 | merging defaults over themselves changes nothing |
| ConfigMerge.MergeTwice | interface.py:5457-5474 | merging again over the same defaults changes nothing |
| TtlCache.Cache.CacheGet | enrich.py:260-266 | the entry's value iff it is present and young enough |
| TtlCache.Cache.CachePut | enrich.py:268-284 | the entry at the end of the order, the first dropped when the size is exceeded |
| TtlCache.HoldsLatest | enrich.py:268-284 | after any history of puts the cache is the last max_size distinct keys, each with its latest put |
| TtlCache.WithinSize | enrich.py:268-284 | it never exceeds its size nor holds a key twice |
| TtlCache.HitsExactly | enrich.py:260-266 | a lookup hits iff the key is among those and its latest put is younger than the time to live, and returns that put's value |
| TtlCache.EvictsOldest | enrich.py:268-284 | dropping the first entry is evicting the oldest timestamp |
| Verdict.SearchLeftmost | llm_caller.py:866-877 | a field is read at the leftmost match of its pattern, and is missing iff there is none |
| Verdict.VerdictRead | llm_caller.py:866-893 | in any response the verdict is the word after its first matching label, whatever the case and the blanks around the colon |
| Verdict.ConfidenceRead | llm_caller.py:866-893 | so is the confidence |
| Verdict.ErrorsNamed | llm_caller.py:841-893 | verdict and confidence are there iff their patterns match, and the error names exactly what is missing, or the empty response |
| Verdict.BlockReadsBack | llm_caller.py:819-893 | the documented block reads back field by field, stripped, if its summary and reasoning are field texts without the labels of later fields |
| Verdict.FirstFieldsReadBack | llm_caller.py:862-893 | verdict and confidence read back whatever the texts say, and the summary iff it is not blank and no later line of it begins with a marker |
| Verdict.ReasoningReadsBack | llm_caller.py:862-868 | so does the reasoning, iff likewise, once the summary holds no reasoning label |
| Verdict.MissingReadsBack | llm_caller.py:862-871 | the last text reads back iff the reasoning holds no label for it, once the summary holds none |
| Verdict.LabelTakesOver | llm_caller.py:862-871 | otherwise all that follows that label is read in its place |
| Verdict.FailureUnderstood | llm_caller.py:790-813 | for every reason the synthetic failure parses as FAILED, HIGH and the fixed summary, without error; and with the fixed text of what is missing iff the reason holds no label for that |
| Verdict.ReasonReadBackExactly | llm_caller.py:790-813 | the reason of a failure is read back iff it is not blank and, after its leading white space, holds no marker of the last field at a line start |
| Verdict.LeadingMarkerReadBack | llm_caller.py:862-868 | a marker on its first line is harmless |
| Verdict.ReasonCutAtMarker | llm_caller.py:862-868 | any other reason that is not blank is cut off at its first marker |
| LogCondenser.CondenseRepeatedLogs | graylog_fetch.py:422-458 | the runs expand to exactly the lines' sources and stripped messages, none is empty, neighbours differ, and each carries its first and last line's timestamps |
| LogCondenser.CountsAddUp | graylog_fetch.py:422-458 | the counts sum to the number of lines |
| LogCondenser.CanonicalUnique | graylog_fetch.py:422-458 | two canonical lists for the same lines are the same runs |
| LogCondenser.CanonicalShortest | graylog_fetch.py:422-458 | no list of runs for the same lines is shorter |
| LogCondenser.CondensedExactly | graylog_fetch.py:422-458 | a canonical list stands for the lines iff it is the condenser's result, timestamps aside |

## Left out

- Process restarts and crashes of the ledger, and rows already in its table: a run starts with an empty cache and table.
- Ledger.Enabled: a window is written within 30 days after its timestamp and not more than an hour before it. The sanitizer changes exactly the others (`AlertHistory.SanitizeExactly`); the cache keeps the unsanitized timestamp, so their closes would not find the row.
- Database errors are a write that happens or does not: WAL, retries of locked statements, and an INSERT repeated after a failed commit are not modelled. The rule and host of a row are a function of its key.
- A silence period that changes for a key during a run, or is not positive, in the ledger.
- CloseWriter.CleanStopDrains: a stop whose join times out is not a clean stop and promises nothing.
- Averages, thresholds and texts of the baseline: floating-point rounding is their only content.
- `is_first_seen`, `record_alert` for callers without windows, and status listings: single queries.
- Escalations: failed statements of recording and maintenance, and attempts that overlap in time.
- Escalations.BudgetHolds: for attempts one after the other; concurrent attempts can pass the check together in the code too.
- The reader counts characters of one content per call: bytes, universal newlines and a file that changes during a call are not modelled; JSON parsing is a function parameter. Saving and loading the position is its value.
- A rotation abandons the old file's unread tail; results are per file generation.
- IP aliases: IPv6 textual forms, and files with entries that are not addresses beyond being skipped. Random draws are arbitrary free values.
- The order of a dictionary's keys, where loops visit them in some order.
- NamedAliases.Category.LoadUsers: entries are taken with their names and aliases already stripped; lower and upper case of names are function parameters; digits are ASCII digits.
- Substitution.Substitute: the regular expression engine is modelled as literal alternation and word boundaries over words of English letters, digits and underscores; without case, letters other than English ones and what matches them stand for themselves only.
- The four passes over a prompt, one per category, and the merging of their reverse tables: each pass is modelled by itself.
- Restoration.LegibleRoundTrip: its condition on where aliases can be read is sufficient, not necessary (`StraysMayCancel`); single steps have an exact one (`StageExactly`), where occurrences of an alias do not overlap its insertions, and so has the spelling of what is restored (`SpelledExactly`).
- Login: the making of a bucket's key from the client address and the stripped, lower-cased user name; attempts on one bucket that overlap in time, the TOTP replay check (section 5.2 of RFC 6238) and sessions.
- ConfigMerge: lists are leaves, as in the code.
- Verdict.BlockReadsBack: markers count in the letters that fold to English ones; the program's own printed blocks only, not what language models write.
- Log condensing: `strip` is a function parameter.
- HTTP, DNS and language model clients, retries and endpoint rotation, e-mail, the web page, the shippers and counters: they would add easy members or calls into code that cannot be seen.
- Statistics snapshots, the EPSS and degraded-result caches, role stubs: they would add easy members.
