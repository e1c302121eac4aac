# shortlinkapp — a verified model of the link lifecycle core

shortlinkapp is a console URL shortener. Each local user (identified by a UUID) creates short
codes for long URLs. Every link carries a time-to-live and an optional click limit, and moves
through the statuses ACTIVE, EXPIRED, LIMIT_REACHED and DELETED. The links, the users and an
event log are kept in JSON files behind in-memory list caches.

This project models that core in Dafny and proves what it promises:

- **Links store** (`links_repository.dfy`, module `LinksStorage`). The class `LinksRepository`
  holds the cached list and the `L-######` id counter. The counter is restored at startup from
  the stored ids. The store offers append, lookups, an owner-checked delete and the four repository
  sweeps (by expiry or by quota, over all owners or one owner, soft-marking or hard-removing). Each
  sweep is a method proved equal to a specification function (`SoftSweep`, `HardSweep`), and the
  sweep properties are lemmas about those functions. The JSON file behind the cache is a ghost field
  `persisted`. A flush either copies the cache into it or, when the write fails, leaves it as it was.
- **Status rules** (`lifecycle.dfy`, module `Lifecycle`). `Open` captures what opening a link does:
  expiry first, then DELETED, then the quota, then one click. `EditLimit` and `Recomputed` capture
  how a new click limit is checked and the status recomputed.
- **Service sweeps** (`service_cleanup.dfy`, module `Cleanup`). These are the service's own
  expiry and quota sweeps. Unlike the repository sweeps, they skip DELETED links. In hard mode they
  delete through `deleteByShortCodeForOwner`. With unique short codes they equal a filter, as proved.
  `Swept` names the links a sweep reports, one event each, with their owner and code.
- **Reports** (`service_reports.dfy`, module `Reports`). `computeStats` and `validateJson` are
  loops proved against reference functions. The stored-link integrity check finds no issue exactly
  when every link is clean and the codes are unique.
- **Service** (`short_link_service.dfy`, module `Service`). The class `ShortLinkService` covers:
  - create, open, delete and edit-limit;
  - the logged sweeps and the automatic maintenance that precedes open, create and list;
  - owner switching, integrity validation and the code normalisation.

  The service's calls to its event sink come back as a list of `Notice`s, in call order. Every
  state-changing operation keeps short codes unique in the store.
- **Event log** (`events_repository.dfy`, `event_service.dfy`). `EventsRepository` is an
  append-only list with an owner filter. `EventService` gates logging on its `enabled` flag and
  returns an owner's newest events up to a limit.
- **Users** (`users_repository.dfy`). `UsersRepository.UpsertCurrent` finds or inserts the current
  user without creating duplicate uuids.
- **Console helpers** (`console_menu.dfy`, module `Menu`). These are the column padding, the
  truncation, and the filter and sort rules of the "my links" listing.
- **Shared pieces.** `time_utils.dfy` holds the inclusive expiry test. `model.dfy` holds the
  records. `text.dfy` holds the trimming, case and number-parsing functions of `java.lang.String`,
  `Integer` and `Long`, restricted to ASCII. `seqs.dfy` holds filter, first-index and stable
  insertion sort. `wrappers.dfy` holds `Option` and `Result`.

Conventions:

- A Java `null` field is `None`.
- Timestamps are integers in seconds, so "plus `h` hours" is `+ h * 3600`.
- The current time `now` is a parameter.
- A Java `int` counter that can overflow is wrapped explicitly: `Inc32` for `clickCount += 1`,
  `Wrap32` for the `totalClicks` sum. The `long` id counter wraps through `IncLong`.

## Model

| member | source | states |
|---|---|---|
| LinksStorage.LinksRepository.constructor | src/main/java/org/example/shortlinkapp/storage/LinksRepository.java:36-52 | the cache is the loaded list and the sequence is the largest `L-` number that `Long.parseLong` accepts, or 0 |
| LinksStorage.RestoredSequence | src/main/java/org/example/shortlinkapp/storage/LinksRepository.java:40-50 | the restored value bounds every parsable `L-` number in the store and is one of them (or 0) |
| LinksStorage.RestoredIdsAreFresh | src/main/java/org/example/shortlinkapp/storage/LinksRepository.java:36-62 | no id minted after a restart collides with an id already stored |
| LinksStorage.RestoreFromSeededIds | src/main/java/org/example/shortlinkapp/storage/LinksRepository.java:36-51 | a store holding ids 3, 7, 2 restores the sequence to 7 |
| LinksStorage.IdsAfterSeven | src/main/java/org/example/shortlinkapp/storage/LinksRepository.java:59-62 | after a restored 7 the next two ids minted, 8 and 9, read L-000008 and L-000009 |
| LinksStorage.FormatIdRoundTrip | src/main/java/org/example/shortlinkapp/storage/LinksRepository.java:45-61 | the startup scan reads back the number of every id `nextId` can mint |
| LinksStorage.FormatIdInjective | src/main/java/org/example/shortlinkapp/storage/LinksRepository.java:59-62 | distinct sequence values give distinct ids |
| LinksStorage.LinksRepository.NextId | src/main/java/org/example/shortlinkapp/storage/LinksRepository.java:59-62 | advances the `long` sequence by one, wrapping from `Long.MAX_VALUE` to `Long.MIN_VALUE`, and returns `L-` with the new value formatted by `%06d` (zero-padded to 6 digits, or a minus sign and 5 digits when negative) |
| LinksStorage.FormatSequenceRoundTrip | src/main/java/org/example/shortlinkapp/storage/LinksRepository.java:40-62 | for every `long` value, the startup scan reads back from the minted id the number it was minted from, negative values included |
| LinksStorage.NextIdAfterMaxLong | src/main/java/org/example/shortlinkapp/storage/LinksRepository.java:59-62 | after `Long.MAX_VALUE` the counter wraps and the id minted is `L--9223372036854775808`, which reads back as `Long.MIN_VALUE` |
| LinksStorage.LinksRepository.Add | src/main/java/org/example/shortlinkapp/storage/LinksRepository.java:69-72 | the link is appended and nothing before it changes; the file holds the new cache or the old content |
| LinksStorage.LinksRepository.Update | src/main/java/org/example/shortlinkapp/storage/LinksRepository.java:82-85 | the link at that position is replaced (the source mutates the shared object), then a flush |
| LinksStorage.LinksRepository.Flush | src/main/java/org/example/shortlinkapp/storage/LinksRepository.java:119-125 | the file holds the cache, or its old content when the write failed |
| LinksStorage.LinksRepository.ListAll | src/main/java/org/example/shortlinkapp/storage/LinksRepository.java:92-94 | returns the whole cache as a value |
| LinksStorage.LinksRepository.FindByShortCode | src/main/java/org/example/shortlinkapp/storage/LinksRepository.java:102-104 | the first link with the code; empty exactly when no link has it |
| LinksStorage.LinksRepository.ListByOwner | src/main/java/org/example/shortlinkapp/storage/LinksRepository.java:112-116 | exactly the owner's links, in store order |
| LinksStorage.LinksRepository.DeleteByShortCodeForOwner | src/main/java/org/example/shortlinkapp/storage/LinksRepository.java:134-144 | true exactly when some entry has both the code and the owner; then the first such entry is removed, otherwise nothing changes and nothing is written |
| LinksStorage.SoftSweep | src/main/java/org/example/shortlinkapp/storage/LinksRepository.java:157-294 | a soft sweep keeps the length and maps each link to itself or to the marked copy |
| LinksStorage.SoftSweepChangesOnlyStatus | src/main/java/org/example/shortlinkapp/storage/LinksRepository.java:169-178 | a soft sweep alters only the status, exactly of in-scope hit links that are neither DELETED nor already marked, and sets the mark |
| LinksStorage.SoftCountZeroIffUnchanged | src/main/java/org/example/shortlinkapp/storage/LinksRepository.java:169-181 | the returned count is zero exactly when the store is unchanged |
| LinksStorage.SoftSweepIdempotent | src/main/java/org/example/shortlinkapp/storage/LinksRepository.java:169-178 | an immediate second soft sweep with the same `now` changes nothing and returns 0 |
| LinksStorage.HardSweepRemovesSelected | src/main/java/org/example/shortlinkapp/storage/LinksRepository.java:159-168 | a hard sweep keeps exactly the links not selected, DELETED ones included in the selection, and removes as many as are selected |
| LinksStorage.OwnerHardSweepSparesOthers | src/main/java/org/example/shortlinkapp/storage/LinksRepository.java:229-258 | an owner-scoped hard sweep leaves every other owner's links, in order |
| LinksStorage.OwnerSoftSweepSparesOthers | src/main/java/org/example/shortlinkapp/storage/LinksRepository.java:270-294 | an owner-scoped soft sweep leaves every other owner's link as it was |
| LinksStorage.LinksRepository.RemoveSelected | src/main/java/org/example/shortlinkapp/storage/LinksRepository.java:159-168 | the removing loop yields `HardSweep` and returns the number removed |
| LinksStorage.LinksRepository.MarkSelected | src/main/java/org/example/shortlinkapp/storage/LinksRepository.java:169-178 | the marking loop yields `SoftSweep` and returns the number changed |
| LinksStorage.LinksRepository.Sweep | src/main/java/org/example/shortlinkapp/storage/LinksRepository.java:157-182 | the sweep result and count; nothing is written when the count is 0 |
| LinksStorage.LinksRepository.CleanupExpired | src/main/java/org/example/shortlinkapp/storage/LinksRepository.java:157-182 | global expiry sweep, hard or soft, with its count and flush-only-on-change |
| LinksStorage.LinksRepository.CleanupLimitReached | src/main/java/org/example/shortlinkapp/storage/LinksRepository.java:193-216 | global quota sweep, hard or soft, with its count and flush-only-on-change |
| LinksStorage.LinksRepository.CleanupExpiredForOwner | src/main/java/org/example/shortlinkapp/storage/LinksRepository.java:229-258 | owner-scoped expiry sweep, hard or soft |
| LinksStorage.LinksRepository.CleanupLimitReachedForOwner | src/main/java/org/example/shortlinkapp/storage/LinksRepository.java:270-294 | owner-scoped quota sweep, hard or soft |
| TimeUtils.ExpiredIffReached | src/main/java/org/example/shortlinkapp/util/TimeUtils.java:11-13 | expired exactly when `expiresAt <= now` |
| TimeUtils.ExpiredAtBoundary | src/main/java/org/example/shortlinkapp/util/TimeUtils.java:12 | equal instants count as expired |
| TimeUtils.NotExpiredBefore | src/main/java/org/example/shortlinkapp/util/TimeUtils.java:12 | a strictly later expiry is not expired |
| TimeUtils.ExpiryMonotone | src/main/java/org/example/shortlinkapp/util/TimeUtils.java:12 | expired at `t` implies expired at every later time |
| Lifecycle.Inc32 | src/main/java/org/example/shortlinkapp/service/ShortLinkService.java:223 | `clickCount += 1` adds one below `Integer.MAX_VALUE` and wraps to `Integer.MIN_VALUE` there |
| Lifecycle.Open | src/main/java/org/example/shortlinkapp/service/ShortLinkService.java:196-230 | an open attempt changes only status, clicks and last access |
| Lifecycle.OpenExpiredIsBlockedFirst | src/main/java/org/example/shortlinkapp/service/ShortLinkService.java:196-203 | an expired non-DELETED link becomes EXPIRED with clicks and last access untouched, even at quota |
| Lifecycle.OpenAtQuotaIsBlocked | src/main/java/org/example/shortlinkapp/service/ShortLinkService.java:209-220 | an unexpired live link at quota becomes LIMIT_REACHED and the click is not counted |
| Lifecycle.OpenDeletedChangesNothing | src/main/java/org/example/shortlinkapp/service/ShortLinkService.java:204-207 | a DELETED link is left exactly as it is |
| Lifecycle.OpenSucceedsExactly | src/main/java/org/example/shortlinkapp/service/ShortLinkService.java:196-230 | an open succeeds iff the link is live, unexpired and below quota; it then counts one click, records `now`, and sets LIMIT_REACHED iff the limit is reached, else ACTIVE |
| Lifecycle.OpenKeepsWithinLimit | src/main/java/org/example/shortlinkapp/service/ShortLinkService.java:209-230 | opening never lets the clicks pass the limit |
| Lifecycle.OpenUnlimitedWraps | src/main/java/org/example/shortlinkapp/service/ShortLinkService.java:223 | an unlimited link at `Integer.MAX_VALUE` clicks opens and its counter wraps negative |
| Lifecycle.OpenWritesOnlyWhenStored | src/main/java/org/example/shortlinkapp/service/ShortLinkService.java:204-207 | the outcomes that return before writing leave the link unchanged |
| Lifecycle.Recomputed | src/main/java/org/example/shortlinkapp/service/ShortLinkService.java:324-333 | EXPIRED iff an expiry is set and reached, else LIMIT_REACHED iff at quota, else ACTIVE; never DELETED |
| Lifecycle.EditLimit | src/main/java/org/example/shortlinkapp/service/ShortLinkService.java:309-333 | an accepted edit changes only the limit and the status |
| Lifecycle.EditLimitOutcomes | src/main/java/org/example/shortlinkapp/service/ShortLinkService.java:309-333 | refused exactly for a non-positive limit, then for one below the clicks; an accepted edit keeps the clicks within the limit, and the status is the recomputed one |
| Lifecycle.RaisingLimitReactivates | src/main/java/org/example/shortlinkapp/service/ShortLinkService.java:321-333 | raising the limit above the clicks of an unexpired link makes it ACTIVE |
| Cleanup.DeleteEachIsFilter | src/main/java/org/example/shortlinkapp/service/ShortLinkService.java:671-700 | with unique codes, deleting snapshot entries one by one through the owner-checked delete removes exactly the affected snapshot links |
| Cleanup.ServiceHardSweepIsFilter | src/main/java/org/example/shortlinkapp/service/ShortLinkService.java:671-740 | with unique codes, a hard service sweep removes exactly the in-scope, non-DELETED links hit by the rule, keeping order |
| Cleanup.ServiceHardSweepKeepsDeleted | src/main/java/org/example/shortlinkapp/service/ShortLinkService.java:678 | in a store whose codes are unique, a hard service sweep never removes a DELETED link, where the repository's hard sweep does |
| Cleanup.DuplicateCodesDeleteDeletedLink | src/main/java/org/example/shortlinkapp/service/ShortLinkService.java:678-683 | when a DELETED link and an expired one share code and owner, the hard sweep removes the DELETED one and keeps the expired one |
| Cleanup.DeletedEntries | src/main/java/org/example/shortlinkapp/service/ShortLinkService.java:677-686 | the entries the hard walk reports are snapshot entries that are affected, and there are exactly as many as the store lost |
| Cleanup.DeletedEntriesIsFilter | src/main/java/org/example/shortlinkapp/service/ShortLinkService.java:677-686 | with unique codes and a snapshot drawn from the store, every affected snapshot entry is deleted and reported, in snapshot order |
| Cleanup.ServiceHardSweepReports | src/main/java/org/example/shortlinkapp/service/ShortLinkService.java:671-740 | with unique codes, the hard sweep reports exactly the in-scope, affected links, in store order |
| Cleanup.Swept | src/main/java/org/example/shortlinkapp/service/ShortLinkService.java:677-696 | the number of links a sweep reports is the number it removes (hard) or `SoftCount` (soft) |
| Cleanup.SweptIsFilter | src/main/java/org/example/shortlinkapp/service/ShortLinkService.java:671-740 | with unique codes in hard mode, a sweep reports exactly the links it acts on, in store order: in scope, not DELETED, hit by the rule, and (soft) not yet marked |
| Cleanup.DuplicateCodesDeleteFirstMatch | src/main/java/org/example/shortlinkapp/service/ShortLinkService.java:683 | with two entries sharing code and owner, the hard sweep deletes the first (unexpired) one and keeps the expired one |
| Cleanup.FilterKeepsUniqueCodes | src/main/java/org/example/shortlinkapp/service/ShortLinkService.java:145-150 | removing links keeps short codes unique |
| Reports.Wrap32Add | src/main/java/org/example/shortlinkapp/service/ShortLinkService.java:480 | summing into an `int` step by step wraps like wrapping the exact sum once |
| Reports.TopCount | src/main/java/org/example/shortlinkapp/service/ShortLinkService.java:492 | `max(0, min(topN, size))` |
| Reports.TopByClicks | src/main/java/org/example/shortlinkapp/service/ShortLinkService.java:490-493 | `TopCount` links from the list (a sub-multiset of it), clicks non-increasing, none fewer than any link left out |
| Reports.StatusCountsAddUp | src/main/java/org/example/shortlinkapp/service/ShortLinkService.java:481-487 | the four per-status counts add up to the total |
| Reports.ComputeStats | src/main/java/org/example/shortlinkapp/service/ShortLinkService.java:475-495 | total is the size, the per-status counts are the counts, `totalClicks` is the wrapped sum, top is `TopByClicks` |
| Reports.LinkIssuesEmpty | src/main/java/org/example/shortlinkapp/service/ShortLinkService.java:568-611 | a link raises no per-link issue exactly when it is clean |
| Reports.NoIssuesIffClean | src/main/java/org/example/shortlinkapp/service/ShortLinkService.java:552-612 | the check reports nothing exactly when every link is clean and codes are non-blank and unique |
| Reports.CleanStoreHasUniqueCodes | src/main/java/org/example/shortlinkapp/service/ShortLinkService.java:557-566 | a store the check passes has unique codes |
| Reports.Validate | src/main/java/org/example/shortlinkapp/service/ShortLinkService.java:549-615 | the loop counts the links and reports exactly the reference issue list, `issues` being its length |
| Service.NormalizeCode | src/main/java/org/example/shortlinkapp/service/ShortLinkService.java:635-642 | null gives ""; without a usable base URL the result is the trimmed input (the menu's `normalizeInputCode`, ConsoleMenu.java lines 350-357, is the same computation) |
| Service.NormalizeStripsBase | src/main/java/org/example/shortlinkapp/service/ShortLinkService.java:635-642 | `baseUrl + code` normalises to the code |
| Service.NormalizeKeepsBareCode | src/main/java/org/example/shortlinkapp/cli/ConsoleMenu.java:350-357 | a trimmed code not starting with the base URL is kept as it is |
| Service.StoredLimit | src/main/java/org/example/shortlinkapp/service/ShortLinkService.java:110-128 | the stored limit is null exactly when override and default are both null, else the effective limit |
| Service.NewLinkFacts | src/main/java/org/example/shortlinkapp/service/ShortLinkService.java:119-131 | a new link is ACTIVE with 0 clicks, within its limit, expires TTL hours after creation, and passes the integrity checks when owner, URL and TTL are sound |
| Service.SweepKeepsUniqueCodes | src/main/java/org/example/shortlinkapp/service/ShortLinkService.java:671-740 | service sweeps keep codes unique |
| Service.AutoCleanedKeepsUniqueCodes | src/main/java/org/example/shortlinkapp/service/ShortLinkService.java:648-652 | maintenance keeps codes unique |
| Service.FirstCodeMatchOwned | src/main/java/org/example/shortlinkapp/service/ShortLinkService.java:258-268 | when the first link with the code is the owner's, the owner-checked delete removes that very link |
| Service.OpenNotices | src/main/java/org/example/shortlinkapp/service/ShortLinkService.java:200-237 | EXPIRED or LIMIT_REACHED event when blocked for that reason, INFO only for a counted click with a desktop |
| Service.ShortLinkService.constructor | src/main/java/org/example/shortlinkapp/service/ShortLinkService.java:54-60 | a session for the owner over a freshly loaded store |
| Service.ShortLinkService.SwitchOwner | src/main/java/org/example/shortlinkapp/service/ShortLinkService.java:417-420 | a null or blank uuid is ignored, any other becomes the owner |
| Service.ShortLinkService.CleanupExpiredAndLog | src/main/java/org/example/shortlinkapp/service/ShortLinkService.java:671-700 | the store becomes the service expiry sweep over the chosen scope; count is the removals (hard) or the status changes (soft); the notices are one EXPIRED event per swept link, in order, naming its owner and code: the snapshot entries whose deletion took place (hard) or the links whose status changed (soft) |
| Service.ShortLinkService.CleanupLimitReachedAndLog | src/main/java/org/example/shortlinkapp/service/ShortLinkService.java:709-740 | the same for the quota, under the same `hardDeleteExpired` switch, with one LIMIT_REACHED event per swept link naming its owner and code |
| Service.ShortLinkService.DeleteEachOf | src/main/java/org/example/shortlinkapp/service/ShortLinkService.java:677-687 | the hard-mode loop equals `DeleteEach`, counts exactly the deletions, and reports one notice per deleted snapshot entry, in snapshot order, with that entry's owner and code |
| Service.ShortLinkService.DeleteIfAffected | src/main/java/org/example/shortlinkapp/service/ShortLinkService.java:678-686 | a snapshot entry that is not DELETED and is hit by the rule is deleted through the first store entry with its code and owner (`DeleteOne`), and nothing happens otherwise; `removed` means the store shrank by exactly one |
| Service.ShortLinkService.MarkAffected | src/main/java/org/example/shortlinkapp/service/ShortLinkService.java:688-696 | the soft-mode loop equals the soft sweep, counts exactly the links it changed, and reports one notice per changed link, in store order, with its owner and code |
| Service.ShortLinkService.MarkIfAffected | src/main/java/org/example/shortlinkapp/service/ShortLinkService.java:678-695 | the link at one store position gets the rule's mark exactly when it is in scope, hit by the rule, not DELETED and not yet marked; `marked` says whether it did, and no other position changes |
| Service.ShortLinkService.AutoCleanupIfEnabled | src/main/java/org/example/shortlinkapp/service/ShortLinkService.java:648-652 | nothing when off; else the global expiry sweep, then the global quota sweep, with the EXPIRED notices of the first followed by the LIMIT_REACHED notices of the second, one per swept link |
| Service.ShortLinkService.ListMyLinks | src/main/java/org/example/shortlinkapp/service/ShortLinkService.java:70-73 | maintenance, then exactly the owner's links, returned with the maintenance notices (those of `AutoCleanupIfEnabled`) |
| Service.ShortLinkService.OpenShortLink | src/main/java/org/example/shortlinkapp/service/ShortLinkService.java:184-248 | after maintenance, "not found", or the first link with the normalised code replaced by its `Open` result, ending with that outcome's events |
| Service.ShortLinkService.DeleteLink | src/main/java/org/example/shortlinkapp/service/ShortLinkService.java:256-278 | succeeds iff the first link with the code is the owner's, and then removes exactly it |
| Service.ShortLinkService.EditClickLimit | src/main/java/org/example/shortlinkapp/service/ShortLinkService.java:288-348 | refusal reasons in order disabled, not found, not owner, then the value checks; on success only that link changes, to the `EditLimit` result |
| Service.ShortLinkService.GenerateUniqueCode | src/main/java/org/example/shortlinkapp/service/ShortLinkService.java:145-150 | the first drawn code no link has (every earlier draw is taken); none only when every draw is taken |
| Service.ShortLinkService.CreateShortLink | src/main/java/org/example/shortlinkapp/service/ShortLinkService.java:104-137 | after maintenance: `UrlRejected` exactly when the URL is invalid, `CreateLimitNotPositive` exactly when it is valid and the limit is not positive, both changing nothing; an accepted request consumes one id and either appends the new link with the first free drawn code or, only when every draw is taken, fails with `NoFreeCode` |
| Service.ShortLinkService.CreatedSucceeds | src/main/java/org/example/shortlinkapp/service/ShortLinkService.java:103-150 | a request with a valid URL, a positive limit and at least one free draw succeeds: the store gains the new link and the counter advances by one |
| Service.ShortLinkService.ValidateJson | src/main/java/org/example/shortlinkapp/service/ShortLinkService.java:540-615 | reports the reference issue list over the whole store |
| EventsStorage.EventsOf | src/main/java/org/example/shortlinkapp/storage/EventsRepository.java:71-75 | exactly the owner's events, in stored order |
| EventsStorage.EventsRepository.Add | src/main/java/org/example/shortlinkapp/storage/EventsRepository.java:51-54 | appends the event, earlier events unchanged, file holds new or old content |
| EventsStorage.EventsRepository.List | src/main/java/org/example/shortlinkapp/storage/EventsRepository.java:61-63 | all events, in stored order, as a value |
| EventsStorage.EventsRepository.ListByOwner | src/main/java/org/example/shortlinkapp/storage/EventsRepository.java:71-75 | the filtering loop returns `EventsOf` |
| EventsStorage.EventsRepository.Flush | src/main/java/org/example/shortlinkapp/storage/EventsRepository.java:81-87 | a failed write is swallowed; the cache stays authoritative |
| Events.Recent | src/main/java/org/example/shortlinkapp/service/EventService.java:49-55 | at most `limit` of the owner's events (exactly `min`, a sub-multiset of them), newest first, none older than an event left out |
| Events.EventService.constructor | src/main/java/org/example/shortlinkapp/service/EventService.java:20-23 | the store exists exactly when built enabled |
| Events.EventService.SetEnabled | src/main/java/org/example/shortlinkapp/service/EventService.java:24-26 | only the flag changes |
| Events.EventService.Log | src/main/java/org/example/shortlinkapp/service/EventService.java:34-43 | disabled: nothing stored; enabled: exactly one event with that type, owner, code and message appended |
| Events.EventService.Info | src/main/java/org/example/shortlinkapp/service/EventService.java:28 | `Log` with INFO |
| Events.EventService.Expired | src/main/java/org/example/shortlinkapp/service/EventService.java:29 | `Log` with EXPIRED |
| Events.EventService.LimitReached | src/main/java/org/example/shortlinkapp/service/EventService.java:30 | `Log` with LIMIT_REACHED |
| Events.EventService.Error | src/main/java/org/example/shortlinkapp/service/EventService.java:31 | `Log` with ERROR |
| Events.EventService.ListByOwner | src/main/java/org/example/shortlinkapp/service/EventService.java:44-47 | empty when disabled, whatever is stored; else the owner's events |
| Events.EventService.RecentByOwner | src/main/java/org/example/shortlinkapp/service/EventService.java:49-55 | empty when disabled; else `Recent`; requires `limit >= 0` while enabled, since `Stream.limit` throws on a negative limit (the menu clamps it to at least 1) |
| UsersStorage.UpsertedFacts | src/main/java/org/example/shortlinkapp/storage/UsersRepository.java:71-85 | after an upsert the user is present and seen at `now`; a new uuid appends one user created at `now`; a known one keeps count and `createdAt`; others unchanged |
| UsersStorage.UpsertKeepsUuidsUnique | src/main/java/org/example/shortlinkapp/storage/UsersRepository.java:71-85 | upserting never creates a duplicate uuid |
| UsersStorage.UsersRepository.UpsertCurrent | src/main/java/org/example/shortlinkapp/storage/UsersRepository.java:71-85 | the cache becomes `Upserted`, and the returned user is the stored one, seen at `now` |
| UsersStorage.UsersRepository.FindByUuid | src/main/java/org/example/shortlinkapp/storage/UsersRepository.java:54-56 | the first user with the uuid; empty exactly when none |
| UsersStorage.UsersRepository.List | src/main/java/org/example/shortlinkapp/storage/UsersRepository.java:44-46 | all users as a value |
| Menu.Pad | src/main/java/org/example/shortlinkapp/cli/ConsoleMenu.java:885-892 | a string at least `width` long is returned unchanged (null as ""); a shorter one is followed by spaces to exactly `width` |
| Menu.Trunc | src/main/java/org/example/shortlinkapp/cli/ConsoleMenu.java:870-876 | "-" for null; else the trimmed text when it fits, or a prefix of it exactly `max` long (0 when `max` is negative), ending in "..." when `max > 3` |
| Menu.StatusFilterSelectsStatus | src/main/java/org/example/shortlinkapp/cli/ConsoleMenu.java:225-231 | a filter naming a status, in any letter case, keeps exactly the links in that status |
| Menu.StatusFilterAll | src/main/java/org/example/shortlinkapp/cli/ConsoleMenu.java:226-229 | a filter reading ALL in any letter case, after trimming, keeps every link |
| Menu.StatusFilterAllSpellings | src/main/java/org/example/shortlinkapp/cli/ConsoleMenu.java:226-229 | "all" and "All" are two such spellings |
| Menu.TextFilterFindsOwnCode | src/main/java/org/example/shortlinkapp/cli/ConsoleMenu.java:233-240 | typing a link's code, in any letter case, keeps that link |
| Menu.FilterLinks | src/main/java/org/example/shortlinkapp/cli/ConsoleMenu.java:243-245 | keeps exactly the links passing both filters, in order |
| Menu.SortIndex | src/main/java/org/example/shortlinkapp/cli/ConsoleMenu.java:219-223 | 1 when blank or unparsable, else the parsed `int` |
| Menu.SortIndexOfDigit | src/main/java/org/example/shortlinkapp/cli/ConsoleMenu.java:214-223 | the offered keys 1, 2, 3 are read as themselves |
| Menu.OrderIsTotalPreorder | src/main/java/org/example/shortlinkapp/cli/ConsoleMenu.java:248-268 | each of the three comparators is a total preorder |
| Menu.SortLinks | src/main/java/org/example/shortlinkapp/cli/ConsoleMenu.java:248-269 | a permutation, sorted: key 2 by clicks descending, key 3 by expiry ascending with nulls last, otherwise by creation descending with nulls first |
| Menu.ListedLinks | src/main/java/org/example/shortlinkapp/cli/ConsoleMenu.java:210-269 | the filtered links, permuted into the order of the typed key; exactly `SortLinks` of the filtered list |

## Left out

- JSON persistence, covering reading, writing, Gson, the temp file and the atomic move. A flush is
  a ghost copy that may fail, and loading is the constructor's `loaded` argument.
- The wall clock. `now` is a parameter everywhere, in seconds.
- Randomness. `GenerateUniqueCode` takes the sequence of drawn codes. The source draws until one is
  free and never gives up, so `NoFreeCode` exists only because the draws given are finite.
- Printing, and the message texts of events and validation issues. Issues are modelled as tags.
- Opening a browser (`Desktop`). Whether a desktop is available is the `desktop` parameter, which
  only decides the INFO event.
- `UrlValidator.isValidHttpUrl`. It is the `validUrl` parameter.
- The user store behind `validateJson`'s known-owner test. It is the `knownUsers` parameter.
- `exportMyLinks`, `statsMine`/`statsGlobal` (thin wrappers over `computeStats`), `reloadConfig`,
  `findByShortCode` on the service, `safe`, and `UserService`. None of these is part of the
  lifecycle core.
- `Service.ShortLinkService`: the event sink is assumed present. In the source, `openShortLink`
  calls `events.expired`/`events.limitReached` without a null check. The other calls are guarded.
- The service's event sink is returned as `Notice`s rather than a nested `EventService`. The open,
  create, delete and edit contracts state the notices the operation itself ends with, not those of
  the maintenance before it.
- `Service.ShortLinkService.MarkAffected`: the source walks a snapshot whose entries are the store's
  own objects. The model walks the store positions and skips those out of scope, which visits the
  same links in the same order.
- `Service.ShortLinkService.OpenShortLink`: a non-DELETED link without an expiry instant makes
  `isExpired` throw. The model returns the `ExpiryMissing` outcome and changes nothing.
- `Lifecycle.OpenKeepsWithinLimit`: requires an unlimited link to be below `Integer.MAX_VALUE`
  clicks. Otherwise the counter wraps, as `OpenUnlimitedWraps` shows.
- `Service.ShortLinkService.CreateShortLink`: the URL is validated untrimmed but stored trimmed.
  `NewLinkFacts` therefore assumes the trimmed URL valid for the integrity check.
- `Reports.TopByClicks`: the order among links with equal clicks is not stated. The stable sort
  keeps their list order, but no lemma says so.
- `Events.Recent`: the order among events with equal timestamps is not stated. The stable sort
  keeps their stored order, but no lemma says so.
- `Cleanup.ServiceHardSweepKeepsDeleted`: holds only when the store's codes are unique. With a
  DELETED link and an expired one sharing code and owner, the hard sweep removes the DELETED one
  (`Cleanup.DuplicateCodesDeleteDeletedLink`).
- `Menu.SortLinks`: stability is not stated. `List.sort` is stable and the insertion sort used is
  stable too, but no lemma says so.
- `Menu.ListedLinks`: the order among links with equal keys is not stated, since it is
  `SortLinks` of the filtered list.
- Null `shortCode`, `ownerUuid`, `longUrl` and `status` fields, and null list elements, are
  not modelled. Those fields are non-null strings and statuses here.
- Text handling is ASCII. `trim` removes characters up to U+0020. Case mapping covers A–Z and
  a–z only. `isBlank` uses the ASCII whitespace set. Number parsing accepts only ASCII digits.

Behaviour of the code that the model follows deliberately:

- `deleteLink` removes the record and never sets the status DELETED.
- `editClickLimit` recomputes the status of a DELETED link too, which revives it.
- The service sweeps in hard mode delete through `deleteByShortCodeForOwner`. When two entries
  share a code and an owner, that removes the first one, which need not be the one the sweep
  selected (`Cleanup.DuplicateCodesDeleteFirstMatch`), even a DELETED one
  (`Cleanup.DuplicateCodesDeleteDeletedLink`). Generated codes are unique, so this does
  not arise for links the service created.
- The default sort (key 1) is `nullsLast(...).reversed()`, which puts links without a creation
  time first.
- `computeStats` accumulates `totalClicks` in an `int`, which wraps.
