/** The per-link status rules of the short-link service (service/ShortLinkService.java): what
    opening a link does to it, and how a new click limit is checked and the status recomputed.
    The service applies these to the link it found and writes the result back to the store. */
module Lifecycle {
  import opened Wrappers
  import opened Model
  import opened TimeUtils
  import opened Text
  import opened LinksStorage

  /** `clickCount += 1` on a Java `int`: the largest value wraps around to the smallest. */
  function Inc32(c: int): (r: int)
    ensures MinInt <= c < MaxInt ==> r == c + 1
    ensures c == MaxInt ==> r == MinInt
  {
    if c == MaxInt then MinInt else c + 1
  }

  /** The link's counters hold Java `int` values. */
  predicate IntFields(l: Link) {
    && MinInt <= l.clickCount <= MaxInt
    && (l.clickLimit.Some? ==> MinInt <= l.clickLimit.value <= MaxInt)
  }

  /** The clicks never exceed a set limit (and are never negative). */
  predicate WithinLimit(l: Link) {
    0 <= l.clickCount && (l.clickLimit.Some? ==> l.clickCount <= l.clickLimit.value)
  }

  // ---------- opening ----------

  /** How an open attempt on an existing link ends. `ExpiryMissing` is a link that is not
      DELETED and has no expiry instant: the expiry test dereferences it and throws. */
  datatype OpenOutcome = BlockedExpired | BlockedDeleted | BlockedLimit | Opened | ExpiryMissing

  datatype Opening = Opening(outcome: OpenOutcome, link: Link)

  /** One open attempt at time `now`: expiry first (unless DELETED), then DELETED, then the quota
      before the click, then the click itself with the status recomputed. */
  function Open(l: Link, now: int): (r: Opening)
    ensures r.link.ownerUuid == l.ownerUuid && r.link.shortCode == l.shortCode
    ensures r.link.id == l.id && r.link.longUrl == l.longUrl
    ensures r.link.createdAt == l.createdAt && r.link.expiresAt == l.expiresAt
    ensures r.link.clickLimit == l.clickLimit
  {
    if l.status != Deleted && l.expiresAt.None? then Opening(ExpiryMissing, l)
    else if l.status != Deleted && IsExpired(now, l.expiresAt.value) then
      Opening(BlockedExpired, l.(status := Expired))
    else if l.status == Deleted then Opening(BlockedDeleted, l)
    else if AtQuota(l) then Opening(BlockedLimit, l.(status := LimitReached))
    else
      var c := Inc32(l.clickCount);
      Opening(Opened, l.(clickCount := c, lastAccessAt := Some(now),
                         status := if l.clickLimit.Some? && c >= l.clickLimit.value then LimitReached else Active))
  }

  /** An expired link that is not DELETED is marked EXPIRED and nothing else about it changes,
      whatever its quota: expiry is checked first. */
  lemma OpenExpiredIsBlockedFirst(l: Link, now: int)
    requires l.status != Deleted && ExpiredAt(l, now)
    ensures Open(l, now) == Opening(BlockedExpired, l.(status := Expired))
    ensures Open(l, now).link.clickCount == l.clickCount
    ensures Open(l, now).link.lastAccessAt == l.lastAccessAt
  {
  }

  /** A live link at its quota is marked LIMIT_REACHED and the click is not counted. */
  lemma OpenAtQuotaIsBlocked(l: Link, now: int)
    requires l.status != Deleted && l.expiresAt.Some? && !ExpiredAt(l, now)
    requires AtQuota(l)
    ensures Open(l, now) == Opening(BlockedLimit, l.(status := LimitReached))
    ensures Open(l, now).link.clickCount == l.clickCount
  {
  }

  /** A DELETED link is left exactly as it is. */
  lemma OpenDeletedChangesNothing(l: Link, now: int)
    requires l.status == Deleted
    ensures Open(l, now) == Opening(BlockedDeleted, l)
  {
  }

  /** An open succeeds exactly on a live, unexpired link below its quota; it then counts one
      click, records `now` as the last access and sets LIMIT_REACHED exactly when this click
      reached the limit, ACTIVE otherwise. */
  lemma OpenSucceedsExactly(l: Link, now: int)
    requires IntFields(l) && l.clickCount < MaxInt
    ensures Open(l, now).outcome == Opened
      <==> l.status != Deleted && l.expiresAt.Some? && !ExpiredAt(l, now) && !AtQuota(l)
    ensures Open(l, now).outcome == Opened ==>
      var m := Open(l, now).link;
      && m.clickCount == l.clickCount + 1
      && m.lastAccessAt == Some(now)
      && (m.status == LimitReached <==> AtQuota(m))
      && (m.status == Active <==> !AtQuota(m))
  {
  }

  /** Opening never lets the clicks overtake the limit. An unlimited link must be below the
      largest `int`: its next click wraps the counter (see `OpenUnlimitedWraps`). */
  lemma {:induction false} OpenKeepsWithinLimit(l: Link, now: int)
    requires IntFields(l) && WithinLimit(l)
    requires l.clickLimit.Some? || l.clickCount < MaxInt
    ensures WithinLimit(Open(l, now).link) && IntFields(Open(l, now).link)
  {
    if l.clickLimit.Some? && Open(l, now).outcome == Opened {
      assert l.clickCount < l.clickLimit.value <= MaxInt;
    }
  }

  /** The counter of an unlimited link wraps: one more click on `Integer.MAX_VALUE` clicks leaves
      a negative count. */
  lemma OpenUnlimitedWraps(l: Link, now: int)
    requires l.status == Active && l.expiresAt.Some? && !ExpiredAt(l, now)
    requires l.clickLimit.None? && l.clickCount == MaxInt
    ensures Open(l, now).outcome == Opened && Open(l, now).link.clickCount == MinInt
  {
  }

  /** Only the outcomes that block or count a click write the link back. */
  lemma OpenWritesOnlyWhenStored(l: Link, now: int)
    ensures Open(l, now).outcome in {BlockedDeleted, ExpiryMissing} ==> Open(l, now).link == l
  {
  }

  // ---------- editing the click limit ----------

  /** Why a limit edit is refused, in the order the checks are made. */
  datatype EditError = EditDisabled | EditNotFound | EditNotOwner | LimitNotPositive | LimitBelowClicks

  /** The status after a limit edit: EXPIRED if an expiry instant is set and reached, else
      LIMIT_REACHED if the quota is reached, else ACTIVE. A DELETED link is recomputed too. */
  function Recomputed(l: Link, now: int): (s: Status)
    ensures s == Expired <==> ExpiredAt(l, now)
    ensures s == LimitReached <==> !ExpiredAt(l, now) && AtQuota(l)
    ensures s != Deleted
  {
    if ExpiredAt(l, now) then Expired
    else if AtQuota(l) then LimitReached
    else Active
  }

  /** The value checks of `editClickLimit` once the link is found and owned: `None` (unlimited)
      is always accepted; a number must be positive and then at least the current clicks. */
  function EditLimit(l: Link, newLimit: Option<int>, now: int): (r: Result<Link, EditError>)
    ensures r.Ok? ==> r.value == l.(clickLimit := newLimit, status := r.value.status)
  {
    if newLimit.Some? && newLimit.value <= 0 then Err(LimitNotPositive)
    else if newLimit.Some? && newLimit.value < l.clickCount then Err(LimitBelowClicks)
    else
      var m := l.(clickLimit := newLimit);
      Ok(m.(status := Recomputed(m, now)))
  }

  /** A limit edit is refused exactly for a non-positive limit, then for one below the clicks;
      an accepted edit keeps the clicks within the new limit when they were not negative, and the
      new status is the recomputed one. */
  lemma EditLimitOutcomes(l: Link, newLimit: Option<int>, now: int)
    ensures EditLimit(l, newLimit, now) == Err(LimitNotPositive) <==> newLimit.Some? && newLimit.value <= 0
    ensures EditLimit(l, newLimit, now) == Err(LimitBelowClicks)
      <==> newLimit.Some? && 0 < newLimit.value < l.clickCount
    ensures EditLimit(l, newLimit, now).Ok? && l.clickCount >= 0 ==> WithinLimit(EditLimit(l, newLimit, now).value)
    ensures EditLimit(l, newLimit, now).Ok? ==>
      EditLimit(l, newLimit, now).value.status == Recomputed(l.(clickLimit := newLimit), now)
  {
  }

  /** Raising the limit above the clicks of an unexpired link makes it ACTIVE again. */
  lemma RaisingLimitReactivates(l: Link, n: int, now: int)
    requires n > 0 && n > l.clickCount
    requires !ExpiredAt(l, now)
    ensures EditLimit(l, Some(n), now).Ok? && EditLimit(l, Some(n), now).value.status == Active
  {
  }
}
