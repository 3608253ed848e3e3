# wardnet: a verified model

A Dafny model of the parts of wardnet with the most state and the most careful
ordering, with proofs of what they promise.

- **DNS event synchronisation** (`SyncTheorems`, `SyncRecovery`, `SyncProtocol`,
  `EventPump`, `SyncHook`, `DnsStore`, `DnsHistory`, `DnsReads`, `Calendar`). The daemon
  stores DNS events and streams them to the pages open on a device. Each page
  writes them into a shared browser database under a cursor and acknowledges
  them, and the daemon then deletes its rows. The model is one state machine of
  daemon, any number of pages, acks in flight and database. A run is any
  sequence of steps: streams break anywhere, acks are lost, repeated and
  reordered, transactions abort, pages vanish, the daemon restarts, rows are
  pruned on both sides. A step that is not possible does nothing, so the
  theorems hold for every sequence of steps.
- **Versions and release manifests** (`Versions`, `Channels`, `Manifests`,
  `SpecRows`, `SpecDownloads`, `GitDescribe`, `ReleaseScheme`, `SelfUpdate`, `UpdateCheck`, on
  `Text` and `Sorting`). The version order of the site, the two other comparators that have
  to agree with it (the `wctl` client's and the daemon's), channel
  classification, the grouping of API specifications and the version picker.
- **Smaller state machines and codecs** (`LoggerLevels`, `HashScroll`,
  `EnrollmentLock`, `OuiCsv`, `PortKeys`).

Objects that the source updates in place are classes (`DnsDb`, `DnsEventsSync`,
`LevelRegistry`, `HashScrollTarget`), and its loops are loops. Each method is
proved against a function on values, and the theorems are about those functions.
Every lemma is free of Dafny's automatic induction: where a lemma would get an
induction hypothesis it carries `{:induction false}`, and inductive steps are
written out. In Dafny 4.11 the automatic hypothesis over a sequence can be
inconsistent, which would make such a lemma hold for the wrong reason.

## Where the code and its comments differ

The model follows the code. Each difference has a concrete case and an exact
condition.

- A failed database write is not always delivered again
  (`useDnsEventsSync.ts:109`): a reconnecting stream asks for what follows the
  last *received* id (`NeverReceivedAgain`), and a later commit moves the cursor
  past the failed event. `AbortThenCommitLosesEvent` is such a run.
  `RecoverableExactly` says when an event can still be counted, and
  `ExactlyOnceIffNotOvertaken` which runs lose none.
- The version picker is not always newest first when a specification recurs
  (`PickerCanBeOutOfOrder`, `PickerNewestFirst`), and its default is not always
  the newest stable release (`DefaultCanBeOlder`, `DefaultIsNewestStable`).
- A scroll gesture made after the settle window is not remembered
  (`LateGestureIsForgotten`, `GestureCountsOnlyDuringHold`).
- The comparison in `selfupdate.go` takes `beta.9` for newer than `beta.10` and
  `beta.1` for newer than `beta-x.1` (`TenthBetaIsMissed`, `DashedWordIsMissed`).
  `ClientAgreesExactly` gives the condition over all released versions.
- The daemon's comparison agrees with the manifests on versions with equally
  many components and labels of a word and a number, such as `beta.2`, or none
  (`DaemonAgreesWithManifests`). It disagrees on `1.0.0` and `1.0`, on `1.0` and
  `1.0.0-beta.1`, on `beta.0` and `beta`, and on the labels of dirty development
  builds (`ShortBaseDisagrees`, `ShortReleaseDisagrees`, `ZeroNumberDisagrees`,
  `DirtyBuildDisagrees`). `DaemonAgreesExactly` gives the condition over all
  versions the project writes, of any length.
- A runner killed inside the enrolment lock jams it for good
  (`KillingHolderJams`), and nothing else does (`UsableUnlessKilledInside`).
- Date keys sort by date only while the year numerals sort as text the way they
  do as numbers (`TextOrderIsChronological`, `YearTenThousandSortsFirst`).

## Model

| member | source | states |
|---|---|---|
| `SyncTheorems.EveryEventAccounted` | source/user-app/src/hooks/useDnsEventsSync.ts:25-39 | In every run of daemon, pages, acks and database: no event is counted twice, nothing is counted that was not captured, every captured event above the cursor is still a daemon row or was purged by the daemon, and every one at or below it was counted, failed or purged |
| `SyncTheorems.ExactlyOnceIffNotOvertaken` | source/user-app/src/hooks/useDnsEventsSync.ts:25-39 | Over all runs, with aborts, redeliveries and purges anywhere: the counted events are exactly the captured ones up to the cursor, each once in id order, if and only if no commit ever passed over a captured event the cursor had not reached |
| `SyncTheorems.OnlyFailuresOvertaken` | source/user-app/src/hooks/useDnsEventsSync.ts:96-111 | In every run, an event a queued write is about to pass over has failed on its way or been purged |
| `SyncTheorems.NeverReceivedAgain` | source/user-app/src/hooks/useDnsEventsSync.ts:113-115 | A page that has received an event and finished with its write never queues it again, whatever follows, until the page is closed |
| `SyncTheorems.AcksNeverAhead` | source/user-app/src/hooks/useDnsEventsSync.ts:50-111 | In every run, each posted or pending ack is at most the cursor of a committed transaction, so an ack never deletes a row that was not passed; a page with a pending ack has its timer armed and fewer than a full batch counted |
| `SyncTheorems.AppliedIsAcknowledged` | source/user-app/src/hooks/useDnsEventsSync.ts:96-130 | From any state, once the continuation of a finished write has run, the timer firing or the page going posts its id if it was not posted already |
| `SyncTheorems.UnmountSettles` | source/user-app/src/hooks/useDnsEventsSync.ts:124-130 | A page that goes posts its pending ack once, keeps neither id, count nor timer, and neither fires nor reconnects afterwards |
| `SyncTheorems.AckDeletesRows` | source/daemon/crates/wardnetd-data/src/repository/sqlite/dns_events.rs:151-158 | An ack that arrives deletes exactly the rows up to its id |
| `SyncTheorems.QuietPageHasEverything` | source/daemon/crates/wardnetd-api/src/api/dns_events.rs:93-195 | Replay then live stream leaves no gap: once a connected page has drained, every captured event was counted, failed or purged |
| `SyncTheorems.PageShowsCounted` | source/user-app/src/lib/dnsDb.ts:99-212 | In every run, with pruning and clock ticks anywhere, each day less than seven days back shows the rows, sums and recent activity of all counted events as though nothing had been pruned |
| `SyncTheorems.TrendShowsCounted` | source/user-app/src/lib/dnsDb.ts:26-33 | In every run each of the seven dates the trend reads shows all its counted events |
| `SyncTheorems.CutoffIsOldestTrendDate` | source/user-app/src/lib/dnsDb.ts:183-193 | The cutoff of the pruner is the oldest of the dates the trend reads |
| `SyncTheorems.PruningRemoves` | source/user-app/src/lib/dnsDb.ts:155-212 | Pruning leaves exactly the daily rows dated from the oldest trend date on, and a ring of at most five hundred events |
| `SyncRecovery.RecoverableExactly` | source/user-app/src/hooks/useDnsEventsSync.ts:108-110 | After any run, an uncounted event can still be counted by some continuation if and only if its id is above the cursor and a daemon row, the pending announcement, or a page's stream buffer, batch, channel or write queue still has it where it can be passed on |
| `SyncRecovery.RecoverableExactlyAboveCursor` | source/user-app/src/hooks/useDnsEventsSync.ts:108-110 | For an event the daemon has not purged that is if and only if its id is above the cursor |
| `SyncRecovery.GoneForGood` | source/daemon/crates/wardnetd-data/src/repository/sqlite/dns_events.rs:74-104 | An uncounted event that neither the daemon nor any page has any more is never counted, whatever follows |
| `SyncRecovery.BufferedCommits` | source/daemon/crates/wardnetd-api/src/api/dns_events.rs:146-195 | An event purged from the daemon but buffered above what a stream has sent can still be forwarded, received and counted |
| `SyncRecovery.ReplayReaches` | source/daemon/crates/wardnetd-api/src/api/dns_events.rs:105-144 | From any reachable state a page replaying towards a row above the cursor has a continuation of fetches, sends, receives and commits that counts it, across any number of batches |
| `SyncTheorems.AbortThenCommitLosesEvent` | source/user-app/src/hooks/useDnsEventsSync.ts:108-110 | A concrete run in which a failed write followed by a later commit loses the event, contrary to the comment that it will be delivered again |
| `SyncTheorems.OvertakenIsLost` | source/user-app/src/hooks/useDnsEventsSync.ts:96-111 | Whenever a queued write aborts and the next, higher one commits, the first event is lost |
| `SyncTheorems.LossIsPermanent` | source/user-app/src/lib/dnsDb.ts:118-147 | An event the cursor passed without counting it is never counted, whatever happens afterwards |
| `SyncProtocol.ActionKeepsInv` | source/user-app/src/hooks/useDnsEventsSync.ts:84-130 | Every one of the twenty-two kinds of protocol step keeps the protocol invariant |
| `SyncProtocol.RunKeepsInv` | source/user-app/src/hooks/useDnsEventsSync.ts:84-130 | Every run keeps the protocol invariant |
| `SyncProtocol.CommitKeepsInv` | source/user-app/src/lib/dnsDb.ts:99-153 | A committing transaction keeps the invariant for every other open page as well as its own |
| `SyncProtocol.CaptureKeepsInv` | source/daemon/crates/wardnetd-services/src/dns/capture_runner.rs:152-190 | Storing a row before announcing it keeps the invariant |
| `SyncProtocol.PublishKeepsInv` | source/daemon/crates/wardnetd-services/src/dns/capture_runner.rs:167-178 | Announcing the stored row to every stream keeps the invariant |
| `SyncProtocol.RestartKeepsInv` | source/daemon/crates/wardnetd-services/src/dns/capture_runner.rs:152-190 | Losing the announcement and all streams in a daemon restart keeps the invariant |
| `SyncProtocol.PurgeKeepsInv` | source/daemon/crates/wardnetd-data/src/repository/sqlite/dns_events.rs:74-104 | Deleting any rows under the age and count caps keeps the invariant |
| `SyncProtocol.AckKeepsInv` | source/daemon/crates/wardnetd-data/src/repository/sqlite/dns_events.rs:151-158 | Deleting the rows up to any posted ack, arriving in any order and any number of times, keeps the invariant |
| `SyncProtocol.TrimKeepsInv` | source/user-app/src/lib/dnsDb.ts:155-212 | Trimming the ring, trimming the daily rows and passing days keep the invariant |
| `SyncProtocol.PageActionKeepsInv` | source/user-app/src/hooks/useDnsEventsSync.ts:84-130 | Every step of one page keeps the invariant for all pages |
| `EventPump.FetchHasNoGap` | source/daemon/crates/wardnetd-data/src/repository/sqlite/dns_events.rs:123-149 | A batch is the ascending run of the at most two hundred rows just above the cursor with none skipped, and a short batch leaves no row behind |
| `EventPump.FetchInStep` | source/daemon/crates/wardnetd-api/src/api/dns_events.rs:105-144 | Fetching a batch keeps the page in step: every row not yet settled is above what was sent, in flight, or queued |
| `EventPump.SendInStep` | source/daemon/crates/wardnetd-api/src/api/dns_events.rs:117-144 | Sending one batch row keeps the page in step, including the hand-over to the live stream |
| `EventPump.ForwardInStep` | source/daemon/crates/wardnetd-api/src/api/dns_events.rs:146-195 | Forwarding a live event, or skipping one already sent in the replay, keeps the page in step |
| `EventPump.ConnectInStep` | source/daemon/crates/wardnetd-api/src/api/dns_events.rs:61-67 | Reconnecting from the last received id keeps the page in step |
| `EventPump.DisconnectInStep` | source/user-app/src/hooks/useDnsEventsSync.ts:113-115 | A broken stream loses only what reconnecting asks for again |
| `EventPump.ReceiveInStep` | source/user-app/src/hooks/useDnsEventsSync.ts:88-96 | Receiving a message moves it from the stream to the write queue and keeps the page in step |
| `EventPump.GarbleInStep` | source/user-app/src/hooks/useDnsEventsSync.ts:88-95 | An unreadable message gives up that one event and keeps the page in step otherwise |
| `EventPump.CaptureInStep` | source/daemon/crates/wardnetd-services/src/dns/capture_runner.rs:152-167 | A newly stored, unannounced row keeps every page in step |
| `EventPump.PublishInStep` | source/daemon/crates/wardnetd-services/src/dns/capture_runner.rs:167-178 | Announcing it keeps every page in step, whether the page is replaying, live or closed |
| `EventPump.HeadDoneInStep` | source/user-app/src/hooks/useDnsEventsSync.ts:96-111 | Finishing the write at the head of a queue removes the lowest unsettled event of the page and keeps it in step |
| `SyncHook.AppliedIsPostedNext` | source/user-app/src/hooks/useDnsEventsSync.ts:97-106 | Whatever was pending, an applied id is the next one posted, at once when the batch is full and otherwise by the next flush |
| `SyncHook.EveryFiftiethPosted` | source/user-app/src/hooks/useDnsEventsSync.ts:28-31 | Without a timer in between exactly every fiftieth applied id is posted, and the last one is what stays pending |
| `SyncHook.DnsEventsSync.OnApplied` | source/user-app/src/hooks/useDnsEventsSync.ts:96-111 | A committed write sets the pending ack, posts it and starts the pruning exactly at the batch size and otherwise leaves a timer armed |
| `SyncHook.DnsEventsSync.FlushAck` | source/user-app/src/hooks/useDnsEventsSync.ts:50-71 | Posts the pending id if there is one, once, starts the pruning with it, and clears id, count and timer |
| `SyncHook.DnsEventsSync.ScheduleAck` | source/user-app/src/hooks/useDnsEventsSync.ts:73-77 | Leaves a timer armed and nothing else changed, whether or not one was armed before |
| `SyncHook.DnsEventsSync.Teardown` | source/user-app/src/hooks/useDnsEventsSync.ts:124-130 | Posts what is pending, starts the pruning with it and leaves neither a pending id nor a timer |
| `DnsStore.DnsDb.ApplyEvent` | source/user-app/src/lib/dnsDb.ts:99-153 | All three stores change together to the counted state, or not at all when the transaction aborts; the store invariant is kept |
| `DnsStore.DnsDb.PruneEvents` | source/user-app/src/lib/dnsDb.ts:155-181 | The cursor loop keeps exactly the newest rows up to the ring capacity, or all of them when the transaction aborts |
| `DnsStore.DnsDb.PruneDaily` | source/user-app/src/lib/dnsDb.ts:183-212 | Deleting the key range below the cutoff, when it is not empty, keeps exactly the rows dated at or after the cutoff, or all of them when the transaction aborts |
| `DnsStore.LookupAfterPut` | source/user-app/src/lib/dnsDb.ts:128-141 | Writing a daily row changes what is read back at its key and at no other |
| `DnsStore.PutKeepsOrder` | source/user-app/src/lib/dnsDb.ts:128-141 | Writing a daily row keeps the store in strict key order |
| `DnsStore.DeleteBelowIsCut` | source/user-app/src/lib/dnsDb.ts:196-206 | The upper-open key range up to [cutoff, ""] contains exactly the rows dated before the cutoff |
| `DnsStore.ApplyKeepsValid` | source/user-app/src/lib/dnsDb.ts:118-147 | Counting an event keeps the store invariant, and a new id is appended to the ring |
| `DnsStore.RingBounded` | source/user-app/src/lib/dnsDb.ts:155-181 | The trimmed ring is the newest five hundred events, or all of them when fewer |
| `DnsHistory.RunIsFoldOfAccepted` | source/user-app/src/lib/dnsDb.ts:118-147 | After any sequence of deliveries, in any order and with any repeats, the store is the initial one plus the accepted events: their ring, their tally and the last accepted id |
| `DnsHistory.AcceptedAreRunningMaxima` | source/user-app/src/lib/dnsDb.ts:118-127 | An event is accepted exactly when its id exceeds the cursor and every id delivered before it |
| `DnsHistory.LastAcceptedIsHighest` | source/user-app/src/lib/dnsDb.ts:118-147 | The cursor ends at the highest id delivered |
| `DnsHistory.RedeliveryChangesNothing` | source/user-app/src/lib/dnsDb.ts:118-127 | Delivering any events at or below the cursor again changes nothing |
| `DnsHistory.AbortedRowRecoverable` | source/user-app/src/hooks/useDnsEventsSync.ts:108-110 | An event delivered again is counted if and only if every event committed meanwhile has a smaller id |
| `DnsHistory.TallyCounts` | source/user-app/src/lib/dnsDb.ts:75-142 | The daily row of a date and domain holds the numbers of events of that date and domain whose status is and is not "blocked" |
| `DnsHistory.PruningIsInvisible` | source/user-app/src/lib/dnsDb.ts:155-212 | Interleaving prunes anywhere in a history leaves the cursor, the newest events and every row from the last cutoff on as in the history without prunes |
| `DnsReads.HeadlineConserved` | source/user-app/src/lib/dnsStats.ts:56-68 | The sums of a day are the numbers of its events with status "blocked" and with any other, over the domains the range can see |
| `DnsReads.ShownIsAll` | source/user-app/src/lib/dnsStats.ts:42-54 | That is all events of the day if and only if none has a domain above the upper bound of the key range |
| `DnsReads.WindowShowsAllCounted` | source/user-app/src/lib/dnsStats.ts:84-99 | With pruning anywhere in the history an in-window day still shows every such event once |
| `DnsReads.InDayMeaning` | source/user-app/src/lib/dnsStats.ts:42-54 | The compound-key range selects exactly the rows of the one date with a domain up to the highest code unit |
| `DnsReads.InDayDomains` | source/user-app/src/lib/dnsStats.ts:42-54 | Only a domain that starts at or above the highest code unit, and is not that unit alone, falls outside the day |
| `DnsReads.ReadHeadline` | source/user-app/src/lib/dnsStats.ts:56-68 | The loop returns the blocked, allowed and total sums of the day |
| `DnsReads.ReadTrend` | source/user-app/src/lib/dnsStats.ts:84-99 | One entry per requested date, in the requested order, each with the sums of its own day |
| `DnsReads.TopAreHighest` | source/user-app/src/lib/dnsStats.ts:70-82 | At most n domains, highest first, with their true nonzero counts, none twice, and no omitted domain outranks a listed one |
| `DnsReads.TopShowsEventCounts` | source/user-app/src/lib/dnsStats.ts:142-146 | A count on the blocked list is the number of blocked events of that date and domain in the whole history, and on the queried list the number of all of them |
| `DnsReads.RecentActivity` | source/user-app/src/lib/dnsStats.ts:101-119 | The reverse cursor loop returns the newest n events, newest first |
| `DnsReads.NewestAt` | source/user-app/src/lib/dnsStats.ts:101-119 | Entry i of the newest n is the event i places before the last, and there are n of them or all |
| `DnsReads.ReadsIgnorePruning` | source/user-app/src/lib/dnsStats.ts:101-119 | Activity up to the ring capacity and every in-window day read the same as without pruning |
| `Calendar.CalendarIsEcmaScript` | source/user-app/src/lib/dnsDb.ts:50-57 | Every day number is the day-from-year of its year, by the closed formula of section 21.4.1.3 of ECMA-262, plus its day within the year |
| `Calendar.DateTextReadsBack` | source/user-app/src/lib/dnsDb.ts:50-57 | The text splits at its dashes into the year, a two-digit month and a two-digit day |
| `Calendar.KeysInOrder` | source/user-app/src/lib/dnsDb.ts:50-57 | Up to the year 9999 the text order of date keys is the order of the days |
| `Calendar.KeysInjective` | source/user-app/src/lib/dnsDb.ts:50-57 | Different days up to the year 9999 have different keys |
| `Calendar.TextOrderIsChronological` | source/user-app/src/lib/dnsDb.ts:50-57 | For any two days, text order agrees with the calendar if and only if the years are equal or sort alike as text |
| `Calendar.YearTenThousandSortsFirst` | source/user-app/src/lib/dnsDb.ts:50-57 | The first day of the year 10000 sorts before the last day of 9999 |
| `Calendar.RecentDates` | source/user-app/src/lib/dnsDb.ts:64-73 | The last count days ending today, oldest first |
| `Versions.ParseVersion` | source/marketing-site/scripts/channels.ts:55-76 | Strips prefix and build metadata, splits base from pre-release, and rejects any base segment that is not digits |
| `Versions.ParseWritten` | source/marketing-site/scripts/channels.ts:55-76 | Every tag of an optional edge- and v prefix, numeric segments, an optional dash with its tail and optional build metadata parses to the values of its segments and the identifiers of its tail |
| `Versions.ParsedWasWritten` | source/marketing-site/scripts/channels.ts:55-76 | Nothing else parses: a tag that parses has that form |
| `Versions.ReparseExact` | source/marketing-site/scripts/generate-release-manifests.ts:297-303 | Parsing the stored text of a parsed version gives the same version again, so re-parsing in the row sort cannot fail or differ |
| `Versions.CompareVersion` | source/marketing-site/scripts/channels.ts:85-119 | The two loops compute the recursive comparison of components, then of pre-releases |
| `Versions.CompareAntisymmetric` | source/marketing-site/scripts/channels.ts:85-119 | Swapping the arguments negates the result |
| `Versions.CompareTransitive` | source/marketing-site/scripts/channels.ts:85-119 | The comparison is transitive, mixed numeric and textual identifiers included |
| `Versions.CompareZero` | source/marketing-site/scripts/channels.ts:85-119 | Zero means equal components after padding and equal identifiers up to leading zeros, both directions |
| `Versions.LabelsFollowSemVer` | source/marketing-site/scripts/channels.ts:94-118 | A pre-release ranks lower exactly when, at the first difference, it is a proper prefix or has the lower identifier by the precedence rules of Semantic Versioning |
| `Versions.CompareFollowsSemVer` | source/marketing-site/scripts/channels.ts:85-119 | One version ranks below another exactly when it is smaller at the first differing component, missing ones counting as zero, or the components are equal and it is a pre-release of the release or has the lower label |
| `Channels.ClassifyChannels` | source/marketing-site/scripts/channels.ts:8-11 | On releases and tags: stable is the newest published release that is not a pre-release by flag or tag, beta the newest published one whose label does not start with edge, edge the newest one whose label does, the first listed among equals, and none exactly when there is none |
| `Channels.OffersNewest` | source/marketing-site/scripts/channels.ts:142-169 | The first match of the sorted entries is the newest release of its channel in the original list |
| `Channels.OfferUnique` | source/marketing-site/scripts/channels.ts:142-169 | That description admits one answer only |
| `Channels.StableAtMostBeta` | source/marketing-site/scripts/channels.ts:13-16 | Whenever stable offers a release, beta offers one at least as new |
| `Channels.EdgeBuildsDoNotMove` | source/marketing-site/scripts/channels.ts:131-166 | Two release lists with the same non-edge releases offer the same on stable and beta |
| `Channels.EdgeOutranksBeta` | source/marketing-site/scripts/channels.ts:121-133 | An edge label outranks every beta of the same base, which is why beta has to exclude it |
| `Sorting.SortIsStable` | source/marketing-site/scripts/channels.ts:150-152 | Sorting orders the list and keeps equal entries in their original order |
| `Sorting.StableSortUnique` | source/marketing-site/scripts/channels.ts:150-152 | An ordered list with given runs of equal entries is unique, so any stable sort gives this result |
| `Sorting.FindInSort` | source/marketing-site/scripts/channels.ts:154-166 | The first qualifying entry of the sorted list is the leftmost least qualifying entry of the original one |
| `Manifests.GroupBySpec` | source/marketing-site/scripts/generate-release-manifests.ts:250-276 | The loop over the fetch outcomes builds the groups of the settled releases |
| `Manifests.GroupingPartitions` | source/marketing-site/scripts/generate-release-manifests.ts:250-276 | Each group collects exactly the releases with its hash, in order, with the first one's link and the any-prerelease flag; groups are distinct, complete and in order of first appearance |
| `Manifests.GroupingConserves` | source/marketing-site/scripts/generate-release-manifests.ts:250-276 | The versions of all groups together are the versions shipped, with multiplicity |
| `SpecRows.BuildOpenapiVersions` | source/marketing-site/scripts/generate-release-manifests.ts:197-305 | From any release list and any fetch outcomes: the rows of the groups, newest latest version first |
| `SpecRows.ReleasesArriveSorted` | source/marketing-site/scripts/generate-release-manifests.ts:197-235 | Whatever fetches succeed, the shipped specifications reach the grouping newest first |
| `SpecRows.ShippedExactly` | source/marketing-site/scripts/generate-release-manifests.ts:197-235 | A specification is shipped exactly when a published release with a parseable tag had its assets and checksum fetched, with that release's version, link, hash and flag |
| `SpecRows.RowsArriveSorted` | source/marketing-site/scripts/generate-release-manifests.ts:297-303 | The rows are already in order, so the final sort changes nothing |
| `SpecRows.GroupRow` | source/marketing-site/scripts/generate-release-manifests.ts:278-296 | A row lists exactly the versions shipped with its hash, each as often as it was shipped, oldest first, and its latest version is the last of them |
| `SpecRows.RowLink` | source/marketing-site/scripts/generate-release-manifests.ts:250-296 | A row links the newest release of its specification and is marked exactly when any of its releases is a pre-release by flag or version |
| `SpecRows.LatestIsMaximal` | source/marketing-site/scripts/generate-release-manifests.ts:278-296 | The latest version is at least every version of the row and the link belongs to a release equal to it in order |
| `SpecRows.PickerNewestFirst` | source/marketing-site/src/pages/ApiReference.tsx:69-79 | The picker is newest first if and only if no two specifications interleave |
| `SpecRows.ContiguousSpecs` | source/marketing-site/src/pages/ApiReference.tsx:69-79 | Specifications that never recur do not interleave |
| `SpecRows.PickerCanBeOutOfOrder` | source/marketing-site/src/pages/ApiReference.tsx:69-79 | Three releases whose specification comes back give a picker that is not newest first |
| `SpecRows.PickerStartsNewest` | source/marketing-site/src/pages/ApiReference.tsx:69-79 | The first entry is at least every release |
| `SpecRows.ChoicesServeShipped` | source/marketing-site/src/pages/ApiReference.tsx:69-79 | The picker offers exactly the shipped versions, each with the hash it shipped, marked exactly when its text has a dash |
| `SpecRows.DefaultRelease` | source/marketing-site/src/pages/ApiReference.tsx:156-159 | The default is the newest stable release of the first group that has one |
| `SpecRows.DefaultWithoutStable` | source/marketing-site/src/pages/ApiReference.tsx:156-159 | Without a stable release the default is at least every release |
| `SpecRows.DefaultIsNewestStable` | source/marketing-site/src/pages/ApiReference.tsx:156-159 | It is the newest stable release overall if and only if a newest stable release lies in the earliest group holding a stable one |
| `SpecRows.DefaultCanBeOlder` | source/marketing-site/src/pages/ApiReference.tsx:156-159 | With 3-beta and 1 sharing one specification and 2 shipping another, the page opens on 1 although 2 is stable |
| `SpecDownloads.DroppedRowsAreLeftOut` | source/marketing-site/scripts/generate-release-manifests.ts:318-348 | Whatever downloads fail, the rows published are the rows of the releases left when the dropped hashes are left out, and those are still newest first |
| `SpecDownloads.PublishedPickerNewestFirst` | source/marketing-site/scripts/generate-release-manifests.ts:318-348 | The published picker is newest first if and only if the remaining specifications do not interleave |
| `GitDescribe.DescribeInverted` | source/daemon/build-support/version.rs:34-80 | For every base, commit count, hash and dirtiness the printed form parses to the dev version of the bumped base with that count and hash, or overflows where bumping does |
| `GitDescribe.ExactTag` | source/daemon/build-support/version.rs:44-52 | An exact tag gives its version, with a dirty mark when dirty |
| `GitDescribe.UntaggedHash` | source/daemon/build-support/version.rs:85-92 | A bare hash, clean or dirty, becomes build metadata of the fallback version |
| `GitDescribe.UnrecognisedFallsBack` | source/daemon/build-support/version.rs:38-80 | An output starting with v that is neither a bare version, clean or dirty, nor commits after one gives the fallback version |
| `GitDescribe.BumpBase` | source/daemon/build-support/version.rs:111-119 | Bumping adds one to the numeric patch and keeps the other components; a patch too large for 64 bits stays as it is and the highest that fits overflows |
| `GitDescribe.DevBuildBetweenReleases` | source/daemon/build-support/version.rs:34-80 | A dev build ranks strictly below the release it leads to, and strictly above its tag if and only if the patch is below the 64-bit maximum |
| `GitDescribe.MoreCommitsRankHigher` | source/daemon/build-support/version.rs:34-80 | Among builds off one tag the one with more commits ranks strictly higher |
| `GitDescribe.DirtyTagRanksBelow` | source/daemon/build-support/version.rs:44-52 | A dirty build of an exact tag ranks below the tag |
| `SelfUpdate.SplitCalver` | source/wctl/cmd/wctl/selfupdate.go:243-261 | Three signed decimal components and a label, or nothing |
| `SelfUpdate.AtoiReads` | source/wctl/cmd/wctl/selfupdate.go:253-258 | A component is a numeral with an optional sign within 64 bits, and nothing else |
| `SelfUpdate.VersionNewer` | source/wctl/cmd/wctl/selfupdate.go:214-239 | The loop over the components with the label rule computes the comparison |
| `SelfUpdate.NewerIsStrictWeakOrder` | source/wctl/cmd/wctl/selfupdate.go:214-239 | Newer is irreflexive, transitive and negatively transitive over all strings |
| `SelfUpdate.UnparseableAtBottom` | source/wctl/cmd/wctl/selfupdate.go:214-225 | An unparseable version is newer than nothing, and every parseable one is newer than it |
| `SelfUpdate.AgreesWithManifestOrder` | source/wctl/cmd/wctl/selfupdate.go:214-239 | It agrees with the manifest order whenever the bases differ or at most one of the two has a label, whatever the labels |
| `SelfUpdate.ClientAgreesExactly` | source/wctl/cmd/wctl/selfupdate.go:214-239 | Over all pairs of released versions it agrees with the manifest order if and only if the bases differ, at most one has a label, the words are equal and the numerals sort as text the way they do as numbers, or the words differ and a longer word does not continue the shorter one below the dot |
| `SelfUpdate.TenthBetaIsMissed` | source/wctl/cmd/wctl/selfupdate.go:229-239 | On every base, beta.9 counts as newer than beta.10 while the manifest order ranks it lower |
| `SelfUpdate.DashedWordIsMissed` | source/wctl/cmd/wctl/selfupdate.go:229-239 | On every base, beta.1 counts as newer than beta-x.1 while the manifest order ranks it lower |
| `UpdateCheck.IsNewerIsStrictOrder` | source/daemon/crates/wardnetd-services/src/update/service.rs:652-706 | The daemon's comparison is irreflexive and transitive over all strings |
| `UpdateCheck.DaemonAgreesExactly` | source/daemon/crates/wardnetd-services/src/update/service.rs:652-706 | Over all versions with any number of 64-bit components and any label the project writes (none, a word, a word and one part, a dirty build), the daemon agrees with the manifest order if and only if the padded components differ, or of two equal bases the first is longer and has the higher label or is shorter and has not, or the lengths are equal and the labels fit: an unnumbered label is taken for number 0, a part that is no 64-bit number too, and a dirty build for a longer word |
| `UpdateCheck.DaemonAgreesWithManifests` | source/marketing-site/scripts/channels.ts:78-84 | So it always agrees on versions with equally many components whose labels, if any, are a word and a 64-bit number |
| `UpdateCheck.BasesCompared` | source/daemon/crates/wardnetd-services/src/update/service.rs:692-696 | Lists of numbers of any length compare as in the manifest order except that of two equal up to trailing zeros the longer one ranks higher |
| `UpdateCheck.ShortBaseDisagrees` | source/daemon/crates/wardnetd-services/src/update/service.rs:664-706 | The daemon takes 1.0.0 for newer than 1.0 while the manifest order treats them as equal |
| `UpdateCheck.ShortReleaseDisagrees` | source/daemon/crates/wardnetd-services/src/update/service.rs:664-706 | The daemon does not take 1.0 for newer than 1.0.0-beta.1 while the manifest order ranks it higher |
| `UpdateCheck.ZeroNumberDisagrees` | source/daemon/crates/wardnetd-services/src/update/service.rs:681-688 | On every base the daemon does not take beta.0 for newer than beta while the manifest order ranks it higher |
| `UpdateCheck.BuildsAgreeExactly` | source/daemon/crates/wardnetd-services/src/update/service.rs:680-706 | On the dev versions the build produces the daemon agrees with the manifest order if and only if the bases differ, both are clean, the dirty one of a mixed pair has at least as many commits, or two dirty counts sort as text the way they do as numbers |
| `UpdateCheck.DirtyBuildDisagrees` | source/daemon/crates/wardnetd-services/src/update/service.rs:680-706 | On every base, dev.5.dirty is newer than dev.6 to the daemon while the manifest order ranks it lower |
| `LoggerLevels.LevelRegistry.ResolveLevel` | source/sdk/wardnet-js/src/logger.ts:56-76 | Returns the uncached answer and caches it |
| `LoggerLevels.LevelRegistry.SetLevel` | source/sdk/wardnet-js/src/logger.ts:79-85 | Records the override, drops the tag and its descendants from the cache and keeps the cache coherent |
| `LoggerLevels.CacheAlwaysCoherent` | source/sdk/wardnet-js/src/logger.ts:56-85 | After any sequence of calls every cached level is what a fresh lookup would find |
| `LoggerLevels.UncachedIsLongest` | source/sdk/wardnet-js/src/logger.ts:59-76 | The level is that of the longest override equal to the tag or a dotted prefix of it, else Info |
| `LoggerLevels.UnrelatedUnaffected` | source/sdk/wardnet-js/src/logger.ts:79-85 | An override on a tag that is not a dotted prefix leaves a tag's level alone, which justifies invalidating only descendants |
| `LoggerLevels.InvalidatedExactly` | source/sdk/wardnet-js/src/logger.ts:79-85 | Setting a level drops exactly the cached tags of which it is a dotted prefix and keeps the rest as they were |
| `LoggerLevels.PrefixesAreCovers` | source/sdk/wardnet-js/src/logger.ts:59-85 | The prefixes walked by the lookup are exactly the tags the invalidation test matches |
| `HashScroll.AtMostOneHold` | source/user-app/src/hooks/useHashScrollTarget.ts:76-152 | After any events at most one hold is live, and a live one belongs to the armed fragment and was not released |
| `HashScroll.QuietUntilNewFragment` | source/user-app/src/hooks/useHashScrollTarget.ts:124-140 | Once released nothing scrolls again until a different fragment is shown |
| `HashScroll.GestureEndsNavigation` | source/user-app/src/hooks/useHashScrollTarget.ts:110-113 | A gesture during a hold ends all scrolling until a different fragment is shown |
| `HashScroll.GestureCountsOnlyDuringHold` | source/user-app/src/hooks/useHashScrollTarget.ts:80-119 | After a gesture, a re-run of the effect scrolls again if and only if no hold was live and the fragment had not been released |
| `HashScroll.HoldsExactlyAfterFragments` | source/user-app/src/hooks/useHashScrollTarget.ts:124-140 | After any events and then any fragments shown, the hook holds if and only if the last one is the target, unless it was released and every one of them is the fragment that was dismissed |
| `HashScroll.ResizeScrollsDuringHold` | source/user-app/src/hooks/useHashScrollTarget.ts:86-95 | After any events a resize scrolls once if its hold is live and not otherwise, and only the newest hold can be |
| `HashScroll.LiveFragmentOutranksRouter` | source/user-app/src/hooks/useHashScrollTarget.ts:142-145 | The router's fragment has no influence unless the live one is empty, and then stands in for it |
| `HashScroll.LateGestureIsForgotten` | source/user-app/src/hooks/useHashScrollTarget.ts:52-61 | A gesture after the settle window does not prevent a later scroll to the same fragment |
| `HashScroll.StepKeepsInv` | source/user-app/src/hooks/useHashScrollTarget.ts:76-152 | Every event of the hook keeps its invariant |
| `HashScroll.HashScrollTarget.OnEvent` | source/user-app/src/hooks/useHashScrollTarget.ts:76-152 | The imperative hook follows the event function and keeps the invariant |
| `HashScroll.HashScrollTarget.Arm` | source/user-app/src/hooks/useHashScrollTarget.ts:80-119 | Starts the hold described by the event function, or does nothing when released or without an element |
| `HashScroll.HashScrollTarget.Retarget` | source/user-app/src/hooks/useHashScrollTarget.ts:124-140 | Resets the release only for a fragment different from the armed one, then stops and arms |
| `EnrollmentLock.MutualExclusion` | source/end2end-tests/web-ui/fixtures/seed.ts:192-231 | In every interleaving of any number of runners, with kills, at most one is in the critical section |
| `EnrollmentLock.RegistrationsConsistent` | source/end2end-tests/web-ui/fixtures/seed.ts:252-274 | Every registration uses the identity its own runner minted, and nobody enrols once enrolment is done |
| `EnrollmentLock.RegisteredAtMostOnce` | source/end2end-tests/web-ui/fixtures/seed.ts:252-274 | Over all schedules at most one registration happens, the daemon is enrolled exactly when it has, and from then on no identity is minted |
| `EnrollmentLock.EnrolmentCanFinish` | source/end2end-tests/web-ui/fixtures/seed.ts:252-274 | While nobody was killed inside, a waiting runner has a continuation that completes the enrolment |
| `EnrollmentLock.OnlyHolderRemoves` | source/end2end-tests/web-ui/fixtures/seed.ts:192-231 | The lock directory is removed only by the one runner that holds it |
| `EnrollmentLock.KillingHolderJams` | source/end2end-tests/web-ui/fixtures/seed.ts:192-231 | Killing the holder leaves the lock taken with nobody alive to release it |
| `EnrollmentLock.KilledHolderJamsLock` | source/end2end-tests/web-ui/fixtures/seed.ts:192-231 | From then on no runner ever enters, whatever happens |
| `EnrollmentLock.UsableUnlessKilledInside` | source/end2end-tests/web-ui/fixtures/seed.ts:192-231 | After any schedule a waiting runner can still be brought inside by some continuation if and only if no runner was killed inside |
| `OuiCsv.ParseCsvLine` | source/daemon/crates/wardnetd-data/build.rs:83-113 | The character loop computes the recursive reading of the line |
| `OuiCsv.ReadsBackEncoding` | source/daemon/crates/wardnetd-data/build.rs:83-113 | Every line of quoted and plain fields, with doubled quotes and commas, reads back as its trimmed fields |
| `OuiCsv.TrimMeaning` | source/daemon/crates/wardnetd-data/build.rs:104-112 | Trimming takes all white space off both ends and nothing else |
| `OuiCsv.KeptOnlyInPlace` | source/daemon/crates/wardnetd-data/build.rs:134-151 | Forbidden characters go and every other one stays in place |
| `OuiCsv.KeptCodes` | source/daemon/crates/wardnetd-data/build.rs:136-147 | The permitted characters by code point |
| `OuiCsv.SanitizedName` | source/daemon/crates/wardnetd-data/build.rs:134-151 | A sanitised name holds only permitted characters of the original and no outer white space |
| `OuiCsv.LiteralReadsBack` | source/daemon/crates/wardnetd-data/build.rs:59-66 | Escaping for the generated source reads back as the same text for every text without a carriage return |
| `OuiCsv.GeneratedNameReadsBack` | source/daemon/crates/wardnetd-data/build.rs:59-66 | Every sanitised name survives escaping and reading back |
| `PortKeys.KeyIsCanonical` | source/admin-site/src/lib/serviceBundles.ts:82-87 | Two port lists have the same key if and only if they hold the same ports with the same multiplicity |
| `PortKeys.PortTextInjective` | source/admin-site/src/lib/serviceBundles.ts:82-87 | The text of a port determines protocol and range |
| `PortKeys.LabelIsFirstBundle` | source/admin-site/src/lib/serviceBundles.ts:94-112 | The label is that of the first bundle equal to the service, or none when there is no such bundle |
| `PortKeys.LabelIgnoresOrder` | source/admin-site/src/lib/serviceBundles.ts:94-112 | Reordering the ports does not change the label |
| `PortKeys.BundleMatchesBack` | source/admin-site/src/lib/serviceBundles.ts:34-112 | Every bundle of the table, its ports in any order, is labelled with its own title |

## Left out

- The user interfaces, REST wrappers, file and network access, the wizard, and `hasAnyData`: they hold no ordering or state worth a theorem.
- IndexedDB and EventSource internals: a transaction is one atomic commit or abort, in request order within a page; transactions of different pages interleave freely.
- Several devices: the daemon's rows are those of one device, whose ids ascend with gaps.
- Channel capacities: a full or lagging stream is a disconnect, which may happen at any step.
- A restored backup that makes the daemon's ids start again: ids ascend for the lifetime of the model.
- React's development double mount: a page has one instance of the effect at a time.
- The daemon's stream task and `EnrollmentLock` are modelled on values as step machines, not as loops: waiting and polling intervals are not captured, and a request takes effect before its call returns.
- Time zones, daylight saving and unreadable timestamps: an event carries its local date, and days are numbered from 1 January 1970.
- Calendar.RecentDates: does not reach before 1970, because days are natural numbers.
- JavaScript's number precision: `parseInt` results are natural numbers.
- DnsReads.InDayMeaning: compares domains by code point, so a domain that starts beyond the basic plane counts as above the range, where its UTF-16 units would sort inside it; Dafny's characters have no surrogates.
- DnsReads.ShownIsAll: reads the upper bound of the range by code point in the same way.
- Surrogate pairs: strings are sequences of single characters compared by code, so order among characters beyond the basic plane follows code points rather than UTF-16 units.
- Asset and checksum fetches are the given outcome of one function of the release; SHA-256 itself is not modelled.
- OuiCsv.LiteralReadsBack: reads the escapes the generator writes, not the hexadecimal, Unicode and line-continuation escapes of Rust; the hex-prefix and placeholder filters of the OUI table are not modelled.
- Reading the `CALVER` file and the log adapters: they only read or write text.
