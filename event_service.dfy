/** The notification log (service/EventService.java): a switch that gates logging and reading, in
    front of an events store that exists only when the service was built enabled. */
module Events {
  import opened Wrappers
  import opened Seqs
  import opened Model
  import opened EventsStorage

  /** The order of `Comparator.comparing(ts).reversed()`: `a` may come before `b` when it is at
      least as recent. */
  predicate NewerOrSame(a: EventLog, b: EventLog) {
    a.ts >= b.ts
  }

  lemma NewerOrSameIsTotalPreorder()
    ensures TotalPreorder(NewerOrSame)
  {
  }

  /** What `recentByOwner(owner, limit)` returns over the stored `events`: the owner's events,
      newest first (a stable sort, so equal timestamps keep stored order), cut to `limit`. */
  function Recent(events: seq<EventLog>, owner: string, limit: nat): (r: seq<EventLog>)
    ensures |r| == if limit < |EventsOf(events, owner)| then limit else |EventsOf(events, owner)|
    ensures forall e :: e in r ==> e in events && e.ownerUuid == Some(owner)
    ensures multiset(r) <= multiset(EventsOf(events, owner))
    ensures forall i, j :: 0 <= i < j < |r| ==> r[i].ts >= r[j].ts
    ensures forall e, x :: e in r && x in EventsOf(events, owner) && x !in r ==> e.ts >= x.ts
  {
    NewerOrSameIsTotalPreorder();
    var mine := EventsOf(events, owner);
    var sorted := SortBy(mine, NewerOrSame);
    var k := if limit < |sorted| then limit else |sorted|;
    NewestFirstPrefix(mine, sorted, k);
    sorted[..k]
  }

  /** The first `k` of the owner's events sorted newest first are newest first and are at least
      as recent as every event left out. */
  lemma NewestFirstPrefix(mine: seq<EventLog>, sorted: seq<EventLog>, k: nat)
    requires SortedBy(sorted, NewerOrSame) && multiset(sorted) == multiset(mine) && k <= |sorted|
    ensures forall e :: e in sorted[..k] ==> e in mine
    ensures multiset(sorted[..k]) <= multiset(mine)
    ensures forall i, j :: 0 <= i < j < |sorted[..k]| ==> sorted[..k][i].ts >= sorted[..k][j].ts
    ensures forall e, x :: e in sorted[..k] && x in mine && x !in sorted[..k] ==> e.ts >= x.ts
  {
    SortedPrefix(mine, sorted, NewerOrSame, k);
  }

  class EventService {
    var enabled: bool
    /** The store; `null` when the service was built disabled. */
    const repo: EventsRepository?

    /** Builds the store, loaded with `loaded`, only when `enabled`. */
    constructor (enabled: bool, loaded: seq<EventLog>)
      ensures this.enabled == enabled
      ensures enabled ==> repo != null && fresh(repo) && repo.cache == loaded
      ensures !enabled ==> repo == null
    {
      this.enabled := enabled;
      if enabled {
        repo := new EventsRepository(loaded);
      } else {
        repo := null;
      }
    }

    method SetEnabled(enabled: bool)
      modifies this`enabled
      ensures this.enabled == enabled
    {
      this.enabled := enabled;
    }

    /** Records one event stamped `now` when enabled and does nothing otherwise. A service built
        disabled and then enabled has no store, which the source dereferences: the precondition
        rules that out. */
    method Log(owner: Option<string>, shortCode: Option<string>, msg: string, kind: EventType, now: int)
      requires enabled ==> repo != null
      modifies repo
      ensures !enabled && repo != null ==> unchanged(repo)
      ensures enabled ==> repo.cache == old(repo.cache) + [EventLog(now, kind, owner, shortCode, msg)]
      ensures enabled ==> repo.persisted == repo.cache || repo.persisted == old(repo.persisted)
    {
      if !enabled {
        return;
      }
      repo.Add(EventLog(now, kind, owner, shortCode, msg));
    }

    method Info(owner: Option<string>, shortCode: Option<string>, msg: string, now: int)
      requires enabled ==> repo != null
      modifies repo
      ensures !enabled && repo != null ==> unchanged(repo)
      ensures enabled ==> repo.cache == old(repo.cache) + [EventLog(now, InfoEvent, owner, shortCode, msg)]
      ensures enabled ==> repo.persisted == repo.cache || repo.persisted == old(repo.persisted)
    {
      Log(owner, shortCode, msg, InfoEvent, now);
    }

    method Expired(owner: Option<string>, shortCode: Option<string>, msg: string, now: int)
      requires enabled ==> repo != null
      modifies repo
      ensures !enabled && repo != null ==> unchanged(repo)
      ensures enabled ==> repo.cache == old(repo.cache) + [EventLog(now, ExpiredEvent, owner, shortCode, msg)]
      ensures enabled ==> repo.persisted == repo.cache || repo.persisted == old(repo.persisted)
    {
      Log(owner, shortCode, msg, ExpiredEvent, now);
    }

    method LimitReached(owner: Option<string>, shortCode: Option<string>, msg: string, now: int)
      requires enabled ==> repo != null
      modifies repo
      ensures !enabled && repo != null ==> unchanged(repo)
      ensures enabled ==> repo.cache == old(repo.cache) + [EventLog(now, LimitReachedEvent, owner, shortCode, msg)]
      ensures enabled ==> repo.persisted == repo.cache || repo.persisted == old(repo.persisted)
    {
      Log(owner, shortCode, msg, LimitReachedEvent, now);
    }

    method Error(owner: Option<string>, shortCode: Option<string>, msg: string, now: int)
      requires enabled ==> repo != null
      modifies repo
      ensures !enabled && repo != null ==> unchanged(repo)
      ensures enabled ==> repo.cache == old(repo.cache) + [EventLog(now, ErrorEvent, owner, shortCode, msg)]
      ensures enabled ==> repo.persisted == repo.cache || repo.persisted == old(repo.persisted)
    {
      Log(owner, shortCode, msg, ErrorEvent, now);
    }

    /** The owner's events in stored order; nothing at all while disabled, whatever is stored. */
    method ListByOwner(owner: string) returns (r: seq<EventLog>)
      requires enabled ==> repo != null
      ensures !enabled ==> r == []
      ensures enabled ==> r == EventsOf(repo.cache, owner)
    {
      if !enabled {
        return [];
      }
      r := repo.ListByOwner(owner);
    }

    /** The owner's `limit` newest events; nothing at all while disabled. `Stream.limit` throws
        on a negative limit, hence the precondition. */
    method RecentByOwner(owner: string, limit: int) returns (r: seq<EventLog>)
      requires enabled ==> repo != null && limit >= 0
      ensures !enabled ==> r == []
      ensures enabled ==> r == Recent(repo.cache, owner, limit)
    {
      if !enabled {
        return [];
      }
      var mine := repo.ListByOwner(owner);
      NewerOrSameIsTotalPreorder();
      var sorted := SortBy(mine, NewerOrSame);
      r := sorted[..if limit < |sorted| then limit else |sorted|];
    }
  }
}
