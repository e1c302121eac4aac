/** The short-link service (service/ShortLinkService.java): the operations of one owner's session
    on top of the links store. The calls it makes to its event sink are returned as a list of
    notices, in the order they are made. */
module Service {
  import opened Wrappers
  import opened Seqs
  import opened Text
  import opened Model
  import opened TimeUtils
  import opened LinksStorage
  import opened Lifecycle
  import opened Cleanup
  import opened Reports

  /** The runtime switches the service reads (storage/ConfigJson.java). */
  datatype Config = Config(
    baseUrl: Option<string>,
    shortCodeLength: int,
    defaultTtlHours: int,
    defaultClickLimit: Option<int>,
    maxUrlLength: int,
    cleanupOnEachOp: bool,
    allowOwnerEditLimit: bool,
    hardDeleteExpired: bool)

  /** One call to the event sink: the category, the owner and the code (the message text is not
      modelled). */
  datatype Notice = Notice(kind: EventType, owner: string, shortCode: string)

  /** Why `createShortLink` gives no link: the URL is rejected, the effective limit is not
      positive, or none of the drawn codes was free. */
  datatype CreateError = UrlRejected | CreateLimitNotPositive | NoFreeCode

  // ---------- pure parts ----------

  /** `normalizeCode`: the trimmed input (`null` reads as empty), with the base URL cut off the
      front when one is configured, not blank, and a prefix. */
  function NormalizeCode(input: Option<string>, baseUrl: Option<string>): (r: string)
    ensures input.None? ==> r == ""
    ensures baseUrl.None? || IsBlank(baseUrl.value) ==> r == (if input.None? then "" else Trim(input.value))
  {
    var s := if input.None? then "" else Trim(input.value);
    if baseUrl.Some? && !IsBlank(baseUrl.value) && StartsWith(s, baseUrl.value) then s[|baseUrl.value|..] else s
  }

  /** A full short URL, `baseUrl + code`, reaches the bare code. */
  lemma NormalizeStripsBase(base: string, code: string)
    requires !IsBlank(base) && Trim(base + code) == base + code
    ensures NormalizeCode(Some(base + code), Some(base)) == code
  {
    var s := base + code;
    assert s[..|base|] == base;
    assert StartsWith(s, base);
    assert s[|base|..] == code;
  }

  /** A bare code that does not itself start with the base URL is taken as it is. */
  lemma NormalizeKeepsBareCode(base: Option<string>, code: string)
    requires Trim(code) == code
    requires base.Some? ==> !StartsWith(code, base.value)
    ensures NormalizeCode(Some(code), base) == code
  {
  }

  /** The limit `createShortLink` checks: the override, else the configured default, else the
      largest `int` (unlimited). */
  function EffectiveLimit(limitOverride: Option<int>, defaultLimit: Option<int>): int {
    if limitOverride.Some? then limitOverride.value
    else if defaultLimit.Some? then defaultLimit.value
    else MaxInt
  }

  /** The stored limit of a new link: absent exactly when neither an override nor a default is
      given. */
  function StoredLimit(limitOverride: Option<int>, defaultLimit: Option<int>): (r: Option<int>)
    ensures r.None? <==> limitOverride.None? && defaultLimit.None?
    ensures r.Some? ==> r.value == EffectiveLimit(limitOverride, defaultLimit)
  {
    if defaultLimit.None? && limitOverride.None? then None
    else Some(EffectiveLimit(limitOverride, defaultLimit))
  }

  /** The link `createShortLink` stores. */
  function NewLink(id: string, owner: string, longUrl: string, code: string, now: int, cfg: Config,
                   limitOverride: Option<int>): Link {
    Link(Some(id), owner, Trim(longUrl), code, Some(now), Some(now + cfg.defaultTtlHours * 3600),
         StoredLimit(limitOverride, cfg.defaultClickLimit), 0, None, Active)
  }

  /** A new link is ACTIVE with no clicks, within its limit, expires `defaultTtlHours` after its
      creation, and passes every per-link integrity check when its owner is known, its trimmed URL
      is valid, the TTL is not negative and the limit was accepted. */
  lemma NewLinkFacts(id: string, owner: string, longUrl: string, code: string, now: int, cfg: Config,
                     limitOverride: Option<int>, known: set<string>, validUrl: (string, int) -> bool)
    requires EffectiveLimit(limitOverride, cfg.defaultClickLimit) > 0
    ensures var l := NewLink(id, owner, longUrl, code, now, cfg, limitOverride);
      && l.status == Active && l.clickCount == 0 && WithinLimit(l)
      && l.expiresAt.value - l.createdAt.value == cfg.defaultTtlHours * 3600
      && (cfg.defaultTtlHours > 0 ==> !ExpiredAt(l, now))
    ensures var l := NewLink(id, owner, longUrl, code, now, cfg, limitOverride);
      !IsBlank(owner) && owner in known && validUrl(Trim(longUrl), cfg.maxUrlLength) && cfg.defaultTtlHours >= 0
      ==> LinkClean(l, known, validUrl, cfg.maxUrlLength)
  {
  }

  /** The store after the automatic maintenance that opening and creating start with: when
      enabled, the expiry sweep and then the quota sweep over all owners, hard or soft by the one
      `hardDeleteExpired` switch. */
  function AutoCleaned(links: seq<Link>, cfg: Config, now: int): seq<Link> {
    if !cfg.cleanupOnEachOp then links
    else ServiceSweep(ServiceSweep(links, ByExpiry(now), AllOwners, cfg.hardDeleteExpired),
                      ByQuota, AllOwners, cfg.hardDeleteExpired)
  }

  /** Sweeps keep the codes of a store unique. */
  lemma SweepKeepsUniqueCodes(links: seq<Link>, rule: Rule, scope: Scope, hardDelete: bool)
    requires UniqueCodes(links)
    ensures UniqueCodes(ServiceSweep(links, rule, scope, hardDelete))
  {
    if hardDelete {
      ServiceHardSweepIsFilter(links, rule, scope);
      FilterKeepsUniqueCodes(links, KeptBy(rule, scope));
    } else {
      var r := SoftSweep(links, rule, scope);
      forall i, j | 0 <= i < j < |r| ensures r[i].shortCode != r[j].shortCode {
        assert r[i].shortCode == links[i].shortCode && r[j].shortCode == links[j].shortCode;
      }
    }
  }

  lemma AutoCleanedKeepsUniqueCodes(links: seq<Link>, cfg: Config, now: int)
    requires UniqueCodes(links)
    ensures UniqueCodes(AutoCleaned(links, cfg, now))
  {
    if cfg.cleanupOnEachOp {
      SweepKeepsUniqueCodes(links, ByExpiry(now), AllOwners, cfg.hardDeleteExpired);
      SweepKeepsUniqueCodes(ServiceSweep(links, ByExpiry(now), AllOwners, cfg.hardDeleteExpired),
                            ByQuota, AllOwners, cfg.hardDeleteExpired);
    }
  }

  /** Writing back a link with the same code keeps the codes unique. */
  lemma ReplaceKeepsUniqueCodes(links: seq<Link>, k: nat, l: Link)
    requires UniqueCodes(links) && k < |links| && l.shortCode == links[k].shortCode
    ensures UniqueCodes(links[k := l])
  {
    var r := links[k := l];
    assert forall i :: 0 <= i < |r| ==> r[i].shortCode == links[i].shortCode;
  }

  /** Appending a link whose code is free keeps the codes unique. */
  lemma AppendKeepsUniqueCodes(links: seq<Link>, l: Link)
    requires UniqueCodes(links) && IndexOfCode(links, l.shortCode).None?
    ensures UniqueCodes(links + [l])
  {
    var r := links + [l];
    forall i, j | 0 <= i < j < |r| ensures r[i].shortCode != r[j].shortCode {
      assert r[i] == links[i];
    }
  }

  /** One hard-mode step: the walk over the rest of the snapshot starts with its next entry. */
  lemma DeleteEachStep(links: seq<Link>, snap: seq<Link>, i: nat, rule: Rule)
    requires i < |snap|
    ensures DeleteEach(links, snap[i..], rule) == DeleteEach(DeleteOne(links, snap[i], rule), snap[i + 1..], rule)
  {
    assert snap[i..][0] == snap[i];
    assert snap[i..][1..] == snap[i + 1..];
  }

  /** The store after the hard-mode walk has handled the first `i` snapshot entries. */
  ghost function DeletedUpTo(links: seq<Link>, snap: seq<Link>, i: nat, rule: Rule): seq<Link>
    requires i <= |snap|
  {
    if i == 0 then links else DeleteOne(DeletedUpTo(links, snap, i - 1, rule), snap[i - 1], rule)
  }

  /** The walk over the first `i` entries followed by the walk over the rest is the whole walk. */
  lemma {:induction false} DeletedUpToThenRest(links: seq<Link>, snap: seq<Link>, i: nat, rule: Rule)
    requires i <= |snap|
    ensures DeleteEach(DeletedUpTo(links, snap, i, rule), snap[i..], rule) == DeleteEach(links, snap, rule)
  {
    if i > 0 {
      DeletedUpToThenRest(links, snap, i - 1, rule);
      DeleteEachStep(DeletedUpTo(links, snap, i - 1, rule), snap, i - 1, rule);
    }
  }

  /** The entries the hard-mode walk has reported after handling the first `i` snapshot entries:
      those whose deletion took place. */
  ghost function ReportedUpTo(links: seq<Link>, snap: seq<Link>, i: nat, rule: Rule): seq<Link>
    requires i <= |snap|
  {
    if i == 0 then []
    else
      var before := DeletedUpTo(links, snap, i - 1, rule);
      ReportedUpTo(links, snap, i - 1, rule)
        + (if |DeleteOne(before, snap[i - 1], rule)| < |before| then [snap[i - 1]] else [])
  }

  /** The hard-mode walk after `i` snapshot entries: the store and the notices so far. */
  ghost predicate Walked(links: seq<Link>, snap: seq<Link>, i: nat, rule: Rule, cache: seq<Link>, notices: seq<Notice>)
    requires i <= |snap|
  {
    cache == DeletedUpTo(links, snap, i, rule) && notices == NoticesFor(NoticeKind(rule), ReportedUpTo(links, snap, i, rule))
  }

  /** One more step of the hard-mode walk reports its entry exactly when the store shrank. */
  lemma ReportedStep(links: seq<Link>, snap: seq<Link>, i: nat, rule: Rule)
    requires i < |snap|
    ensures ReportedUpTo(links, snap, i + 1, rule) == ReportedUpTo(links, snap, i, rule)
      + (if |DeletedUpTo(links, snap, i + 1, rule)| < |DeletedUpTo(links, snap, i, rule)| then [snap[i]] else [])
  {
  }

  /** What the walk reports over the first `i` entries followed by what it reports over the rest
      is what the whole walk reports. */
  lemma {:induction false} ReportedUpToThenRest(links: seq<Link>, snap: seq<Link>, i: nat, rule: Rule)
    requires i <= |snap|
    ensures ReportedUpTo(links, snap, i, rule) + DeletedEntries(DeletedUpTo(links, snap, i, rule), snap[i..], rule)
            == DeletedEntries(links, snap, rule)
  {
    if i > 0 {
      ReportedUpToThenRest(links, snap, i - 1, rule);
      assert snap[i - 1..][0] == snap[i - 1];
      assert snap[i - 1..][1..] == snap[i..];
    }
  }

  /** A create result is the link or one of the three refusals. */
  lemma CreateResultCases(r: Result<Link, CreateError>)
    ensures r.Ok? || r == Err(UrlRejected) || r == Err(CreateLimitNotPositive) || r == Err(NoFreeCode)
  {
    if r.Err? {
      match r.error
      case UrlRejected =>
      case CreateLimitNotPositive =>
      case NoFreeCode =>
    }
  }

  /** The two outcomes of deleting one snapshot entry. */
  lemma DeleteOneCases(links: seq<Link>, l: Link, rule: Rule)
    ensures !Affected(rule, l) || IndexOfCodeAndOwner(links, l.shortCode, l.ownerUuid).None? ==> DeleteOne(links, l, rule) == links
    ensures Affected(rule, l) && IndexOfCodeAndOwner(links, l.shortCode, l.ownerUuid).Some? ==>
      DeleteOne(links, l, rule) == RemoveAt(links, IndexOfCodeAndOwner(links, l.shortCode, l.ownerUuid).value)
  {
  }

  /** When the first link with a code belongs to `owner`, it is also the first one with that code
      and owner. */
  lemma FirstCodeMatchOwned(links: seq<Link>, code: string, owner: string)
    requires IndexOfCode(links, code).Some? && links[IndexOfCode(links, code).value].ownerUuid == owner
    ensures IndexOfCodeAndOwner(links, code, owner) == IndexOfCode(links, code)
  {
    var k := IndexOfCode(links, code).value;
    var m := IndexOfCodeAndOwner(links, code, owner).value;
    assert m <= k;
    assert links[m].shortCode == code;
  }

  /** One notice of kind `kind` per link, in order, naming the link's owner and code. */
  function NoticesFor(kind: EventType, links: seq<Link>): (r: seq<Notice>)
    ensures |r| == |links|
  {
    seq(|links|, i requires 0 <= i < |links| => Notice(kind, links[i].ownerUuid, links[i].shortCode))
  }

  lemma NoticesForSnoc(kind: EventType, links: seq<Link>, l: Link)
    ensures NoticesFor(kind, links + [l]) == NoticesFor(kind, links) + [Notice(kind, l.ownerUuid, l.shortCode)]
  {
  }

  /** The event category a sweep reports. */
  function NoticeKind(rule: Rule): EventType {
    match rule
    case ByExpiry(_) => ExpiredEvent
    case ByQuota => LimitReachedEvent
  }

  /** The notices an open attempt ends with: EXPIRED or LIMIT_REACHED when blocked for that
      reason, INFO on a counted click when a desktop browser is there to open it. */
  function OpenNotices(l: Link, now: int, desktop: bool): (r: seq<Notice>)
    ensures |r| <= 1
    ensures Open(l, now).outcome == BlockedExpired ==> r == [Notice(ExpiredEvent, l.ownerUuid, l.shortCode)]
    ensures Open(l, now).outcome == BlockedLimit ==> r == [Notice(LimitReachedEvent, l.ownerUuid, l.shortCode)]
    ensures Open(l, now).outcome in {BlockedDeleted, ExpiryMissing} ==> r == []
  {
    match Open(l, now).outcome
    case BlockedExpired => [Notice(ExpiredEvent, l.ownerUuid, l.shortCode)]
    case BlockedLimit => [Notice(LimitReachedEvent, l.ownerUuid, l.shortCode)]
    case Opened => if desktop then [Notice(InfoEvent, l.ownerUuid, l.shortCode)] else []
    case BlockedDeleted => []
    case ExpiryMissing => []
  }

  /** `code` is the first of the drawn `rolls` that no link in `c` has: every earlier draw is
      taken. */
  ghost predicate FirstFreeDraw(c: seq<Link>, rolls: seq<string>, code: string) {
    exists i :: 0 <= i < |rolls| && rolls[i] == code && IndexOfCode(c, rolls[i]).None?
                && forall j :: 0 <= j < i ==> IndexOfCode(c, rolls[j]).Some?
  }

  class ShortLinkService {
    var ownerUuid: string
    var cfg: Config
    const repo: LinksRepository

    /** A session for `ownerUuid`, over a store loaded with `loaded`. */
    constructor (ownerUuid: string, cfg: Config, loaded: seq<Link>)
      ensures this.ownerUuid == ownerUuid && this.cfg == cfg
      ensures fresh(repo) && repo.cache == loaded && repo.sequence == RestoredSequence(loaded)
      ensures repo.Valid()
    {
      this.ownerUuid := ownerUuid;
      this.cfg := cfg;
      repo := new LinksRepository(loaded);
    }

    /** `switchOwner`: a missing or blank uuid is ignored. */
    method SwitchOwner(newUuid: Option<string>)
      modifies this`ownerUuid
      ensures newUuid.None? || IsBlank(newUuid.value) ==> ownerUuid == old(ownerUuid)
      ensures newUuid.Some? && !IsBlank(newUuid.value) ==> ownerUuid == newUuid.value
    {
      if newUuid.None? || IsBlank(newUuid.value) {
        return;
      }
      ownerUuid := newUuid.value;
    }

    // ---------- sweeps ----------

    /** The common body of the two service sweeps, over the whole store or the owner's links. */
    method SweepAndLog(rule: Rule, onlyMine: bool) returns (count: nat, notices: seq<Notice>)
      modifies repo
      ensures var scope := if onlyMine then OwnedByUser(ownerUuid) else AllOwners;
        && repo.cache == ServiceSweep(old(repo.cache), rule, scope, cfg.hardDeleteExpired)
        && count == (if cfg.hardDeleteExpired then |old(repo.cache)| - |repo.cache|
                     else SoftCount(old(repo.cache), rule, scope))
        && notices == NoticesFor(NoticeKind(rule), Swept(old(repo.cache), rule, scope, cfg.hardDeleteExpired))
      ensures repo.sequence == old(repo.sequence)
    {
      var scope := if onlyMine then OwnedByUser(ownerUuid) else AllOwners;
      if cfg.hardDeleteExpired {
        count, notices := DeleteAffected(rule, scope);
      } else {
        count, notices := MarkAffected(rule, scope);
      }
    }

    /** Hard mode: walks a snapshot of the scope and deletes every affected entry through
        `deleteByShortCodeForOwner`, counting the deletions that took place. */
    method DeleteAffected(rule: Rule, scope: Scope) returns (count: nat, notices: seq<Notice>)
      modifies repo
      ensures repo.cache == ServiceSweep(old(repo.cache), rule, scope, true)
      ensures count == |old(repo.cache)| - |repo.cache|
      ensures notices == NoticesFor(NoticeKind(rule), Swept(old(repo.cache), rule, scope, true))
      ensures repo.sequence == old(repo.sequence)
    {
      var snap;
      if scope.OwnedByUser? {
        snap := repo.ListByOwner(scope.owner);
      } else {
        snap := repo.ListAll();
      }
      assert snap == Snapshot(repo.cache, scope);
      count, notices := DeleteEachOf(snap, rule);
    }

    /** The hard-mode walk over a given snapshot. */
    method DeleteEachOf(snap: seq<Link>, rule: Rule) returns (count: nat, notices: seq<Notice>)
      modifies repo
      ensures repo.cache == DeleteEach(old(repo.cache), snap, rule)
      ensures count == |old(repo.cache)| - |repo.cache|
      ensures notices == NoticesFor(NoticeKind(rule), DeletedEntries(old(repo.cache), snap, rule))
      ensures repo.sequence == old(repo.sequence)
    {
      ghost var c0 := repo.cache;
      count := 0;
      notices := [];
      var i := 0;
      while i < |snap|
        invariant 0 <= i <= |snap|
        invariant Walked(c0, snap, i, rule, repo.cache, notices)
        invariant count == |notices|
        invariant repo.sequence == old(repo.sequence)
      {
        var removed;
        removed, notices := DeleteAndReport(c0, snap, i, rule, notices);
        if removed {
          count := count + 1;
        }
        i := i + 1;
      }
      DeletedUpToThenRest(c0, snap, i, rule);
      ReportedUpToThenRest(c0, snap, i, rule);
      assert snap[i..] == [];
    }

    /** Step `i` of the hard-mode walk: the entry is handled and, when it was deleted, reported. */
    method DeleteAndReport(ghost c0: seq<Link>, snap: seq<Link>, i: nat, rule: Rule, notices: seq<Notice>)
      returns (removed: bool, notices': seq<Notice>)
      requires i < |snap| && Walked(c0, snap, i, rule, repo.cache, notices)
      modifies repo
      ensures Walked(c0, snap, i + 1, rule, repo.cache, notices')
      ensures |notices'| == |notices| + (if removed then 1 else 0)
      ensures repo.sequence == old(repo.sequence)
    {
      var l := snap[i];
      removed := DeleteIfAffected(l, rule);
      ReportedStep(c0, snap, i, rule);
      notices' := notices;
      if removed {
        NoticesForSnoc(NoticeKind(rule), ReportedUpTo(c0, snap, i, rule), l);
        notices' := notices + [Notice(NoticeKind(rule), l.ownerUuid, l.shortCode)];
      }
    }

    /** The body of the hard-mode walk for one snapshot entry: an affected entry is deleted
        through its code and owner. */
    method DeleteIfAffected(l: Link, rule: Rule) returns (removed: bool)
      modifies repo
      ensures repo.cache == DeleteOne(old(repo.cache), l, rule)
      ensures removed ==> |repo.cache| == |old(repo.cache)| - 1
      ensures !removed ==> repo.cache == old(repo.cache)
      ensures repo.sequence == old(repo.sequence)
    {
      removed := false;
      if Affected(rule, l) {
        removed := repo.DeleteByShortCodeForOwner(l.shortCode, l.ownerUuid);
      }
      DeleteOneCases(old(repo.cache), l, rule);
    }

    /** Soft mode: marks every affected in-scope link that does not carry the mark yet, writing
        each one back as it goes. The snapshot holds the store's own links in store order, so the
        walk is over store positions, skipping those out of scope. */
    method MarkAffected(rule: Rule, scope: Scope) returns (count: nat, notices: seq<Notice>)
      modifies repo
      ensures repo.cache == SoftSweep(old(repo.cache), rule, scope)
      ensures count == SoftCount(old(repo.cache), rule, scope)
      ensures notices == NoticesFor(NoticeKind(rule), Swept(old(repo.cache), rule, scope, false))
      ensures repo.sequence == old(repo.sequence)
    {
      ghost var c0 := repo.cache;
      count := 0;
      notices := [];
      var i := 0;
      while i < |repo.cache|
        invariant |repo.cache| == |c0| && 0 <= i <= |c0|
        invariant forall k :: 0 <= k < i ==> repo.cache[k] == SoftMarkOne(rule, scope, c0[k])
        invariant forall k :: i <= k < |c0| ==> repo.cache[k] == c0[k]
        invariant count == |notices|
        invariant notices == NoticesFor(NoticeKind(rule), FilterUpTo(c0, i, ChangedBy(rule, scope)))
        invariant repo.sequence == old(repo.sequence)
      {
        var l := repo.cache[i];
        var marked := MarkIfAffected(i, rule, scope);
        if marked {
          count := count + 1;
          NoticesForSnoc(NoticeKind(rule), FilterUpTo(c0, i, ChangedBy(rule, scope)), l);
          notices := notices + [Notice(NoticeKind(rule), l.ownerUuid, l.shortCode)];
        }
        i := i + 1;
      }
      FilterUpToIsFilter(c0, i, ChangedBy(rule, scope));
      assert c0[..i] == c0;
    }

    /** The body of the soft-mode walk for store position `i`: an affected in-scope link without
        the mark gets it and is written back. */
    method MarkIfAffected(i: nat, rule: Rule, scope: Scope) returns (marked: bool)
      requires i < |repo.cache|
      modifies repo
      ensures repo.cache == old(repo.cache)[i := SoftMarkOne(rule, scope, old(repo.cache)[i])]
      ensures marked == SoftChanges(rule, scope, old(repo.cache)[i])
      ensures repo.sequence == old(repo.sequence)
    {
      var l := repo.cache[i];
      marked := InScope(scope, l) && l.status != Deleted && Hits(rule, l) && l.status != Mark(rule);
      if marked {
        repo.Update(i, l.(status := Mark(rule)));
      }
    }

    /** `cleanupExpiredAndLog(onlyMine)` at time `now`. */
    method CleanupExpiredAndLog(onlyMine: bool, now: int) returns (count: nat, notices: seq<Notice>)
      modifies repo
      ensures var scope := if onlyMine then OwnedByUser(ownerUuid) else AllOwners;
        && repo.cache == ServiceSweep(old(repo.cache), ByExpiry(now), scope, cfg.hardDeleteExpired)
        && count == (if cfg.hardDeleteExpired then |old(repo.cache)| - |repo.cache|
                     else SoftCount(old(repo.cache), ByExpiry(now), scope))
        && notices == NoticesFor(ExpiredEvent, Swept(old(repo.cache), ByExpiry(now), scope, cfg.hardDeleteExpired))
      ensures repo.sequence == old(repo.sequence)
    {
      count, notices := SweepAndLog(ByExpiry(now), onlyMine);
    }

    /** `cleanupLimitReachedAndLog(onlyMine)`: same switch as the expiry sweep. */
    method CleanupLimitReachedAndLog(onlyMine: bool) returns (count: nat, notices: seq<Notice>)
      modifies repo
      ensures var scope := if onlyMine then OwnedByUser(ownerUuid) else AllOwners;
        && repo.cache == ServiceSweep(old(repo.cache), ByQuota, scope, cfg.hardDeleteExpired)
        && count == (if cfg.hardDeleteExpired then |old(repo.cache)| - |repo.cache|
                     else SoftCount(old(repo.cache), ByQuota, scope))
        && notices == NoticesFor(LimitReachedEvent, Swept(old(repo.cache), ByQuota, scope, cfg.hardDeleteExpired))
      ensures repo.sequence == old(repo.sequence)
    {
      count, notices := SweepAndLog(ByQuota, onlyMine);
    }

    /** `autoCleanupIfEnabled`: both global sweeps, expiry first, when `cleanupOnEachOp` is on. */
    method AutoCleanupIfEnabled(now: int) returns (notices: seq<Notice>)
      modifies repo
      ensures repo.cache == AutoCleaned(old(repo.cache), cfg, now)
      ensures !cfg.cleanupOnEachOp ==> notices == []
      ensures cfg.cleanupOnEachOp ==> (notices ==
        NoticesFor(ExpiredEvent, Swept(old(repo.cache), ByExpiry(now), AllOwners, cfg.hardDeleteExpired))
        + NoticesFor(LimitReachedEvent, Swept(ServiceSweep(old(repo.cache), ByExpiry(now), AllOwners, cfg.hardDeleteExpired),
                                             ByQuota, AllOwners, cfg.hardDeleteExpired)))
      ensures repo.sequence == old(repo.sequence)
    {
      notices := [];
      if !cfg.cleanupOnEachOp {
        return;
      }
      var _, n1 := CleanupExpiredAndLog(false, now);
      var _, n2 := CleanupLimitReachedAndLog(false);
      notices := n1 + n2;
    }

    /** `listMyLinks`: maintenance, then the current owner's links in store order. */
    method ListMyLinks(now: int) returns (mine: seq<Link>, notices: seq<Notice>)
      modifies repo
      ensures repo.cache == AutoCleaned(old(repo.cache), cfg, now)
      ensures !cfg.cleanupOnEachOp ==> notices == []
      ensures cfg.cleanupOnEachOp ==> (notices ==
        NoticesFor(ExpiredEvent, Swept(old(repo.cache), ByExpiry(now), AllOwners, cfg.hardDeleteExpired))
        + NoticesFor(LimitReachedEvent, Swept(ServiceSweep(old(repo.cache), ByExpiry(now), AllOwners, cfg.hardDeleteExpired),
                                             ByQuota, AllOwners, cfg.hardDeleteExpired)))
      ensures mine == OwnedBy(repo.cache, ownerUuid)
      ensures forall l :: l in mine <==> l in repo.cache && l.ownerUuid == ownerUuid
      ensures repo.sequence == old(repo.sequence)
    {
      notices := AutoCleanupIfEnabled(now);
      mine := repo.ListByOwner(ownerUuid);
    }

    // ---------- single-link operations ----------

    /** `openShortLink(rawCode)` at time `now`: maintenance, then the open rules on the first link
        with the normalized code, written back to the store. `None` means no such link.
        `desktop` says whether a browser can be launched, which decides the INFO notice. */
    method OpenShortLink(rawCode: Option<string>, now: int, desktop: bool)
      returns (outcome: Option<OpenOutcome>, notices: seq<Notice>)
      modifies repo
      ensures var c0 := AutoCleaned(old(repo.cache), cfg, now);
        var k := IndexOfCode(c0, NormalizeCode(rawCode, cfg.baseUrl));
        && (k.None? ==> outcome.None? && repo.cache == c0)
        && (k.Some? ==> outcome == Some(Open(c0[k.value], now).outcome)
                        && repo.cache == c0[k.value := Open(c0[k.value], now).link]
                        && |notices| >= |OpenNotices(c0[k.value], now, desktop)|
                        && notices[|notices| - |OpenNotices(c0[k.value], now, desktop)|..]
                           == OpenNotices(c0[k.value], now, desktop))
      ensures UniqueCodes(old(repo.cache)) ==> UniqueCodes(repo.cache)
      ensures repo.sequence == old(repo.sequence)
    {
      ghost var before := repo.cache;
      notices := AutoCleanupIfEnabled(now);
      if UniqueCodes(before) {
        AutoCleanedKeepsUniqueCodes(before, cfg, now);
      }
      var own;
      outcome, own := OpenCode(NormalizeCode(rawCode, cfg.baseUrl), now, desktop);
      notices := notices + own;
      assert notices[|notices| - |own|..] == own;
    }

    /** The part of `openShortLink` after maintenance, for an already normalized code. */
    method OpenCode(code: string, now: int, desktop: bool) returns (outcome: Option<OpenOutcome>, notices: seq<Notice>)
      modifies repo
      ensures var c := old(repo.cache);
        var k := IndexOfCode(c, code);
        && (k.None? ==> outcome.None? && repo.cache == c && notices == [])
        && (k.Some? ==> outcome == Some(Open(c[k.value], now).outcome)
                        && repo.cache == c[k.value := Open(c[k.value], now).link]
                        && notices == OpenNotices(c[k.value], now, desktop))
      ensures UniqueCodes(old(repo.cache)) ==> UniqueCodes(repo.cache)
      ensures repo.sequence == old(repo.sequence)
    {
      var k := IndexOfCode(repo.cache, code);
      if k.None? {
        return None, [];
      }
      var l := repo.cache[k.value];
      var step := Open(l, now);
      if UniqueCodes(repo.cache) {
        ReplaceKeepsUniqueCodes(repo.cache, k.value, step.link);
      }
      if step.outcome != BlockedDeleted && step.outcome != ExpiryMissing {
        repo.Update(k.value, step.link);
      } else {
        assert repo.cache[k.value := step.link] == repo.cache;
      }
      notices := OpenNotices(l, now, desktop);
      outcome := Some(step.outcome);
    }

    /** `deleteLink(rawCode)`: removes the first link with the normalized code when it belongs to
        the current owner; refuses otherwise. No maintenance runs first. */
    method DeleteLink(rawCode: Option<string>) returns (ok: bool, notices: seq<Notice>)
      modifies repo
      ensures var k := IndexOfCode(old(repo.cache), NormalizeCode(rawCode, cfg.baseUrl));
        && (ok <==> k.Some? && old(repo.cache)[k.value].ownerUuid == ownerUuid)
        && (ok ==> repo.cache == RemoveAt(old(repo.cache), k.value))
      ensures !ok ==> repo.cache == old(repo.cache) && notices == []
      ensures ok ==> notices == [Notice(InfoEvent, ownerUuid, NormalizeCode(rawCode, cfg.baseUrl))]
      ensures UniqueCodes(old(repo.cache)) ==> UniqueCodes(repo.cache)
      ensures repo.sequence == old(repo.sequence)
    {
      var code := NormalizeCode(rawCode, cfg.baseUrl);
      var opt := repo.FindByShortCode(code);
      if opt.None? {
        return false, [];
      }
      if opt.value.ownerUuid != ownerUuid {
        return false, [];
      }
      FirstCodeMatchOwned(repo.cache, code, ownerUuid);
      if UniqueCodes(repo.cache) {
        RemoveAtKeepsUniqueCodes(repo.cache, IndexOfCode(repo.cache, code).value);
      }
      ok := repo.DeleteByShortCodeForOwner(code, ownerUuid);
      notices := if ok then [Notice(InfoEvent, ownerUuid, code)] else [];
    }

    /** `editClickLimit(rawCode, newLimit)` at time `now`: the switch, then lookup, ownership and
        the value checks in that order; on success the new limit and the recomputed status are
        written back. */
    method EditClickLimit(rawCode: Option<string>, newLimit: Option<int>, now: int)
      returns (r: Result<Link, EditError>, notices: seq<Notice>)
      modifies repo
      ensures var c := old(repo.cache);
        var k := IndexOfCode(c, NormalizeCode(rawCode, cfg.baseUrl));
        && (!cfg.allowOwnerEditLimit ==> r == Err(EditDisabled))
        && (cfg.allowOwnerEditLimit && k.None? ==> r == Err(EditNotFound))
        && (cfg.allowOwnerEditLimit && k.Some? && c[k.value].ownerUuid != ownerUuid ==> r == Err(EditNotOwner))
        && ((cfg.allowOwnerEditLimit && k.Some? && c[k.value].ownerUuid == ownerUuid)
              ==> r == EditLimit(c[k.value], newLimit, now))
        && (r.Ok? ==> k.Some? && repo.cache == c[k.value := r.value])
      ensures r.Err? ==> repo.cache == old(repo.cache) && notices == []
      ensures r.Ok? ==> notices == [Notice(InfoEvent, r.value.ownerUuid, r.value.shortCode)]
      ensures UniqueCodes(old(repo.cache)) ==> UniqueCodes(repo.cache)
      ensures repo.sequence == old(repo.sequence)
    {
      notices := [];
      if !cfg.allowOwnerEditLimit {
        return Err(EditDisabled), [];
      }
      var code := NormalizeCode(rawCode, cfg.baseUrl);
      var k := IndexOfCode(repo.cache, code);
      if k.None? {
        return Err(EditNotFound), [];
      }
      var l := repo.cache[k.value];
      if l.ownerUuid != ownerUuid {
        return Err(EditNotOwner), [];
      }
      r := EditLimit(l, newLimit, now);
      if r.Err? {
        return;
      }
      if UniqueCodes(repo.cache) {
        ReplaceKeepsUniqueCodes(repo.cache, k.value, r.value);
      }
      repo.Update(k.value, r.value);
      notices := [Notice(InfoEvent, r.value.ownerUuid, r.value.shortCode)];
    }

    /** `generateUniqueCode`, with the random draws given in order: the first drawn code no link
        has. `None` when every draw is taken (the source keeps drawing). */
    method GenerateUniqueCode(rolls: seq<string>) returns (code: Option<string>)
      ensures code.None? <==> forall i :: 0 <= i < |rolls| ==> IndexOfCode(repo.cache, rolls[i]).Some?
      ensures code.Some? ==> FirstFreeDraw(repo.cache, rolls, code.value)
    {
      var i := 0;
      while i < |rolls|
        invariant 0 <= i <= |rolls|
        invariant forall j :: 0 <= j < i ==> IndexOfCode(repo.cache, rolls[j]).Some?
      {
        if repo.FindByShortCode(rolls[i]).None? {
          return Some(rolls[i]);
        }
        i := i + 1;
      }
      return None;
    }

    /** `createShortLink(longUrl, limitOverride)` at time `now`: maintenance, the URL check, the
        limit check, then a fresh id, a free code from `rolls`, and the new link appended. */
    method CreateShortLink(longUrl: string, limitOverride: Option<int>, now: int, rolls: seq<string>,
                           validUrl: (string, int) -> bool)
      returns (r: Result<Link, CreateError>, notices: seq<Notice>)
      requires repo.Valid()
      modifies repo
      ensures repo.Valid()
      ensures Created(AutoCleaned(old(repo.cache), cfg, now), old(repo.sequence), repo.cache, repo.sequence,
                      r, longUrl, limitOverride, now, rolls, validUrl)
      ensures r.Ok? ==> |notices| > 0 && notices[|notices| - 1] == Notice(InfoEvent, ownerUuid, r.value.shortCode)
      ensures UniqueCodes(old(repo.cache)) ==> UniqueCodes(repo.cache)
    {
      ghost var before := repo.cache;
      notices := AutoCleanupIfEnabled(now);
      if UniqueCodes(before) {
        AutoCleanedKeepsUniqueCodes(before, cfg, now);
      }
      var own;
      r, own := CreateChecked(longUrl, limitOverride, now, rolls, validUrl);
      notices := notices + own;
    }

    /** What `createShortLink` does after maintenance, from store `c` and id counter `seq0` to
        store `c'` and counter `seq'`: the URL is checked before the limit; an accepted request
        takes the next id even when no code turns out to be free; the new link gets the first free
        drawn code and is appended. */
    ghost predicate Created(c: seq<Link>, seq0: int, c': seq<Link>, seq': int, r: Result<Link, CreateError>,
                            longUrl: string, limitOverride: Option<int>, now: int, rolls: seq<string>,
                            validUrl: (string, int) -> bool)
      reads this
    {
      && (!validUrl(longUrl, cfg.maxUrlLength) <==> r == Err(UrlRejected))
      && ((validUrl(longUrl, cfg.maxUrlLength) && EffectiveLimit(limitOverride, cfg.defaultClickLimit) <= 0)
            <==> r == Err(CreateLimitNotPositive))
      && ((r == Err(UrlRejected) || r == Err(CreateLimitNotPositive)) ==> c' == c && seq' == seq0)
      && (r == Err(NoFreeCode) ==> c' == c && seq' == IncLong(seq0)
                                   && forall i :: 0 <= i < |rolls| ==> IndexOfCode(c, rolls[i]).Some?)
      && (r.Ok? ==> && seq' == IncLong(seq0)
                    && r.value == NewLink(FormatSequence(seq'), ownerUuid, longUrl, r.value.shortCode, now, cfg, limitOverride)
                    && FirstFreeDraw(c, rolls, r.value.shortCode)
                    && c' == c + [r.value])
    }

    /** A request with a valid URL and a positive limit is accepted as soon as one draw is free:
        the only failure left is running out of draws. */
    lemma CreatedSucceeds(c: seq<Link>, seq0: int, c': seq<Link>, seq': int, r: Result<Link, CreateError>,
                          longUrl: string, limitOverride: Option<int>, now: int, rolls: seq<string>,
                          validUrl: (string, int) -> bool, k: nat)
      requires Created(c, seq0, c', seq', r, longUrl, limitOverride, now, rolls, validUrl)
      requires validUrl(longUrl, cfg.maxUrlLength) && EffectiveLimit(limitOverride, cfg.defaultClickLimit) > 0
      requires k < |rolls| && IndexOfCode(c, rolls[k]).None?
      ensures r.Ok? && c' == c + [r.value] && seq' == IncLong(seq0)
    {
      assert !(forall i :: 0 <= i < |rolls| ==> IndexOfCode(c, rolls[i]).Some?) by {
        assert IndexOfCode(c, rolls[k]).None?;
      }
      CreateResultCases(r);
    }

    /** The checks and the insertion of `createShortLink`, on the store as it is. */
    method CreateChecked(longUrl: string, limitOverride: Option<int>, now: int, rolls: seq<string>,
                         validUrl: (string, int) -> bool)
      returns (r: Result<Link, CreateError>, notices: seq<Notice>)
      requires repo.Valid()
      modifies repo
      ensures repo.Valid()
      ensures Created(old(repo.cache), old(repo.sequence), repo.cache, repo.sequence,
                      r, longUrl, limitOverride, now, rolls, validUrl)
      ensures notices == if r.Ok? then [Notice(InfoEvent, ownerUuid, r.value.shortCode)] else []
      ensures UniqueCodes(old(repo.cache)) ==> UniqueCodes(repo.cache)
    {
      notices := [];
      if !validUrl(longUrl, cfg.maxUrlLength) {
        return Err(UrlRejected), [];
      }
      var limit := EffectiveLimit(limitOverride, cfg.defaultClickLimit);
      if limit <= 0 {
        return Err(CreateLimitNotPositive), [];
      }
      var id := repo.NextId();
      var code := GenerateUniqueCode(rolls);
      if code.None? {
        return Err(NoFreeCode), [];
      }
      var l := NewLink(id, ownerUuid, longUrl, code.value, now, cfg, limitOverride);
      ghost var c0 := repo.cache;
      repo.Add(l);
      if UniqueCodes(c0) {
        AppendKeepsUniqueCodes(c0, l);
      }
      notices := [Notice(InfoEvent, ownerUuid, l.shortCode)];
      r := Ok(l);
    }

    /** `validateJson`: the integrity check over every stored link, with the known user uuids. */
    method ValidateJson(knownUsers: set<string>, validUrl: (string, int) -> bool) returns (report: ValidationReport)
      ensures report.totalLinks == |repo.cache|
      ensures report.messages == Issues(repo.cache, {}, knownUsers, validUrl, cfg.maxUrlLength)
      ensures report.issues == |report.messages|
    {
      var all := repo.ListAll();
      report := Validate(all, knownUsers, validUrl, cfg.maxUrlLength);
    }
  }
}
