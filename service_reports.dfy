/** The two reports of the short-link service (service/ShortLinkService.java): the statistics
    reducer `computeStats` and the integrity check `validateJson`, with the functions that
    specify them. */
module Reports {
  import opened Wrappers
  import opened Seqs
  import opened Text
  import opened Model
  import opened Cleanup

  // ---------- statistics ----------

  /** The `Stats` record; `totalClicks` is a Java `int` accumulator. */
  datatype Stats = Stats(
    total: nat,
    active: nat,
    expired: nat,
    limitReached: nat,
    deleted: nat,
    totalClicks: int,
    topByClicks: seq<Link>)

  const TwoTo32: int := 0x1_0000_0000

  /** The Java `int` that an exact integer wraps to. */
  function Wrap32(x: int): (r: int)
    ensures MinInt <= r <= MaxInt
    ensures MinInt <= x <= MaxInt ==> r == x
  {
    MinInt + (x - MinInt) % TwoTo32
  }

  /** Adding to a wrapped accumulator wraps like adding to the exact one. */
  lemma {:induction false} Wrap32Add(a: int, b: int)
    ensures Wrap32(Wrap32(a) + b) == Wrap32(a + b)
  {
    var q := (a - MinInt) / TwoTo32;
    assert a - MinInt == q * TwoTo32 + (a - MinInt) % TwoTo32;
    assert Wrap32(a) + b - MinInt == (a + b - MinInt) - q * TwoTo32;
    ModShift(a + b - MinInt, q);
  }

  lemma {:induction false} ModShift(x: int, q: int)
    ensures (x - q * TwoTo32) % TwoTo32 == x % TwoTo32
    decreases if q < 0 then -q else q
  {
    if q > 0 {
      ModShift(x, q - 1);
      assert x - q * TwoTo32 == (x - (q - 1) * TwoTo32) - TwoTo32;
    } else if q < 0 {
      ModShift(x, q + 1);
      assert x - q * TwoTo32 == (x - (q + 1) * TwoTo32) + TwoTo32;
    }
  }

  /** How many links carry status `s`. */
  function StatusCount(links: seq<Link>, s: Status): (n: nat)
    ensures n <= |links|
  {
    if links == [] then 0
    else StatusCount(links[..|links| - 1], s) + (if links[|links| - 1].status == s then 1 else 0)
  }

  /** The exact sum of the click counters. */
  function SumClicks(links: seq<Link>): int {
    if links == [] then 0 else SumClicks(links[..|links| - 1]) + links[|links| - 1].clickCount
  }

  /** `Comparator.comparingInt(clickCount).reversed()`: more clicks first. */
  predicate MoreClicks(a: Link, b: Link) {
    a.clickCount >= b.clickCount
  }

  lemma MoreClicksIsTotalPreorder()
    ensures TotalPreorder(MoreClicks)
  {
  }

  /** `max(0, min(topN, size))`. */
  function TopCount(topN: int, size: nat): (k: nat)
    ensures k <= size
    ensures topN <= 0 ==> k == 0
    ensures 0 <= topN <= size ==> k == topN
    ensures topN >= size ==> k == size
  {
    if topN <= 0 then 0 else if topN < size then topN else size
  }

  /** The links sorted by clicks, most first (a stable sort), cut to `TopCount`. */
  function TopByClicks(links: seq<Link>, topN: int): (r: seq<Link>)
    ensures |r| == TopCount(topN, |links|)
    ensures forall e :: e in r ==> e in links
    ensures multiset(r) <= multiset(links)
    ensures forall i, j :: 0 <= i < j < |r| ==> r[i].clickCount >= r[j].clickCount
    ensures forall e, x :: e in r && x in links && x !in r ==> e.clickCount >= x.clickCount
  {
    MoreClicksIsTotalPreorder();
    var sorted := SortBy(links, MoreClicks);
    var k := TopCount(topN, |sorted|);
    SortedPrefix(links, sorted, MoreClicks, k);
    sorted[..k]
  }

  /** Every link has exactly one of the four statuses, so the per-status counts add up to the
      total. (In the source a `null` status is counted in no bucket, hence "at most".) */
  lemma {:induction false} StatusCountsAddUp(links: seq<Link>)
    ensures StatusCount(links, Active) + StatusCount(links, Expired)
      + StatusCount(links, LimitReached) + StatusCount(links, Deleted) == |links|
    decreases |links|
  {
    if links != [] {
      var init := links[..|links| - 1];
      var x := links[|links| - 1];
      StatusCountsAddUp(init);
    }
  }

  /** `computeStats(list, topN)`: counts the statuses and sums the clicks in one pass, then takes
      the first `max(0, min(topN, size))` links of the list sorted by clicks, most first. */
  method ComputeStats(links: seq<Link>, topN: int) returns (s: Stats)
    ensures s.total == |links|
    ensures s.active == StatusCount(links, Active) && s.expired == StatusCount(links, Expired)
    ensures s.limitReached == StatusCount(links, LimitReached) && s.deleted == StatusCount(links, Deleted)
    ensures s.totalClicks == Wrap32(SumClicks(links))
    ensures s.topByClicks == TopByClicks(links, topN)
  {
    var active, expired, limitReached, deleted := 0, 0, 0, 0;
    var clicks := 0;
    var i := 0;
    while i < |links|
      invariant 0 <= i <= |links|
      invariant active == StatusCount(links[..i], Active) && expired == StatusCount(links[..i], Expired)
      invariant limitReached == StatusCount(links[..i], LimitReached) && deleted == StatusCount(links[..i], Deleted)
      invariant clicks == Wrap32(SumClicks(links[..i]))
    {
      var l := links[i];
      assert links[..i + 1][..i] == links[..i];
      Wrap32Add(SumClicks(links[..i]), l.clickCount);
      clicks := Wrap32(clicks + l.clickCount);
      match l.status {
        case Active => active := active + 1;
        case Expired => expired := expired + 1;
        case LimitReached => limitReached := limitReached + 1;
        case Deleted => deleted := deleted + 1;
      }
      i := i + 1;
    }
    assert links[..i] == links;
    MoreClicksIsTotalPreorder();
    var sorted := SortBy(links, MoreClicks);
    var k := TopCount(topN, |sorted|);
    var top := [];
    var j := 0;
    while j < k
      invariant 0 <= j <= k
      invariant top == sorted[..j]
    {
      top := top + [sorted[j]];
      j := j + 1;
    }
    s := Stats(|links|, active, expired, limitReached, deleted, clicks, top);
  }

  // ---------- integrity check ----------

  /** One finding of `validateJson`, with the fields its message shows. */
  datatype Issue =
    | MissingCode(id: Option<string>)
    | DuplicateCode(code: string, id: Option<string>)
    | OrphanLink(id: Option<string>, code: string)
    | InvalidUrl(code: string, url: string)
    | CreatedAtMissing(code: string)
    | ExpiresAtMissing(code: string)
    | ExpiresBeforeCreated(code: string)
    | NegativeClicks(code: string)
    | NonPositiveLimit(code: string)
    | OverLimitNotMarked(code: string)

  datatype ValidationReport = ValidationReport(totalLinks: nat, issues: nat, messages: seq<Issue>)

  /** The checks on one link other than its code, in the order they are made. */
  function LinkIssues(l: Link, known: set<string>, validUrl: (string, int) -> bool, maxLen: int): seq<Issue> {
    var code := l.shortCode;
    (if IsBlank(l.ownerUuid) || l.ownerUuid !in known then [OrphanLink(l.id, code)] else [])
    + (if !validUrl(l.longUrl, maxLen) then [InvalidUrl(code, l.longUrl)] else [])
    + (if l.createdAt.None? then [CreatedAtMissing(code)] else [])
    + (if l.expiresAt.None? then [ExpiresAtMissing(code)]
       else if l.createdAt.Some? && l.expiresAt.value < l.createdAt.value then [ExpiresBeforeCreated(code)]
       else [])
    + (if l.clickCount < 0 then [NegativeClicks(code)] else [])
    + (if l.clickLimit.Some? && l.clickLimit.value <= 0 then [NonPositiveLimit(code)] else [])
    + (if l.clickLimit.Some? && l.clickCount > l.clickLimit.value && l.status != LimitReached
       then [OverLimitNotMarked(code)] else [])
  }

  /** The code check: a blank code is missing; a code seen on an earlier link is a duplicate. */
  function CodeIssues(l: Link, seen: set<string>): seq<Issue> {
    if IsBlank(l.shortCode) then [MissingCode(l.id)]
    else if l.shortCode in seen then [DuplicateCode(l.shortCode, l.id)]
    else []
  }

  /** The codes seen so far, after one more link (blank codes are not recorded). */
  function NextSeen(seen: set<string>, l: Link): set<string> {
    if IsBlank(l.shortCode) then seen else seen + {l.shortCode}
  }

  /** All findings over `links` in store order, given the codes `seen` on earlier links. */
  function Issues(links: seq<Link>, seen: set<string>, known: set<string>, validUrl: (string, int) -> bool, maxLen: int): seq<Issue>
    decreases |links|
  {
    if links == [] then []
    else
      CodeIssues(links[0], seen) + LinkIssues(links[0], known, validUrl, maxLen)
      + Issues(links[1..], NextSeen(seen, links[0]), known, validUrl, maxLen)
  }

  /** A link that passes every check except the code check. */
  predicate LinkClean(l: Link, known: set<string>, validUrl: (string, int) -> bool, maxLen: int) {
    && !IsBlank(l.ownerUuid) && l.ownerUuid in known
    && validUrl(l.longUrl, maxLen)
    && l.createdAt.Some? && l.expiresAt.Some? && l.expiresAt.value >= l.createdAt.value
    && l.clickCount >= 0
    && (l.clickLimit.Some? ==> l.clickLimit.value > 0 && (l.clickCount <= l.clickLimit.value || l.status == LimitReached))
  }

  /** Every code is present, none was seen before, and no two links share one. */
  predicate CodesFresh(links: seq<Link>, seen: set<string>) {
    && (forall i :: 0 <= i < |links| ==> !IsBlank(links[i].shortCode) && links[i].shortCode !in seen)
    && UniqueCodes(links)
  }

  lemma LinkIssuesEmpty(l: Link, known: set<string>, validUrl: (string, int) -> bool, maxLen: int)
    ensures LinkIssues(l, known, validUrl, maxLen) == [] <==> LinkClean(l, known, validUrl, maxLen)
  {
  }

  /** The codes of a non-empty list are fresh exactly when the first one is neither blank nor
      seen, and the rest are fresh with respect to the codes seen after it. */
  lemma CodesFreshCons(links: seq<Link>, seen: set<string>)
    requires links != []
    ensures CodesFresh(links, seen)
      <==> CodeIssues(links[0], seen) == [] && CodesFresh(links[1..], NextSeen(seen, links[0]))
  {
    var l, rest := links[0], links[1..];
    var seen' := NextSeen(seen, l);
    assert forall i :: 0 < i < |links| ==> links[i] == rest[i - 1];
    if CodesFresh(links, seen) {
      assert CodesFresh(rest, seen') by {
        forall i | 0 <= i < |rest| ensures rest[i].shortCode !in seen' {
          assert links[0].shortCode != links[i + 1].shortCode;
        }
        forall i, j | 0 <= i < j < |rest| ensures rest[i].shortCode != rest[j].shortCode {
          assert links[i + 1].shortCode != links[j + 1].shortCode;
        }
      }
    }
    if CodeIssues(l, seen) == [] && CodesFresh(rest, seen') {
      assert CodesFresh(links, seen) by {
        forall i, j | 0 <= i < j < |links| ensures links[i].shortCode != links[j].shortCode {
          if i == 0 {
            assert rest[j - 1].shortCode !in seen';
          }
        }
      }
    }
  }

  /** The check reports nothing exactly when every link is clean and the codes are present and
      unique (and new with respect to `seen`). */
  lemma {:induction false} NoIssuesIffClean(links: seq<Link>, seen: set<string>, known: set<string>,
                                            validUrl: (string, int) -> bool, maxLen: int)
    ensures Issues(links, seen, known, validUrl, maxLen) == []
      <==> (forall i :: 0 <= i < |links| ==> LinkClean(links[i], known, validUrl, maxLen))
           && CodesFresh(links, seen)
    decreases |links|
  {
    if links != [] {
      var rest := links[1..];
      NoIssuesIffClean(rest, NextSeen(seen, links[0]), known, validUrl, maxLen);
      LinkIssuesEmpty(links[0], known, validUrl, maxLen);
      CodesFreshCons(links, seen);
      assert forall i :: 0 < i < |links| ==> links[i] == rest[i - 1];
    }
  }

  /** A store that passes the check has unique codes, which makes the hard service sweeps plain
      filters (`Cleanup.ServiceHardSweepIsFilter`). */
  lemma CleanStoreHasUniqueCodes(links: seq<Link>, known: set<string>, validUrl: (string, int) -> bool, maxLen: int)
    requires Issues(links, {}, known, validUrl, maxLen) == []
    ensures UniqueCodes(links)
  {
    NoIssuesIffClean(links, {}, known, validUrl, maxLen);
  }

  /** One step of the pass: the findings from position i on are those of link i followed by the
      findings from i + 1 on, with its code now seen. */
  lemma IssuesStep(links: seq<Link>, i: nat, seen: set<string>, known: set<string>,
                   validUrl: (string, int) -> bool, maxLen: int, done: seq<Issue>)
    requires i < |links|
    ensures done + Issues(links[i..], seen, known, validUrl, maxLen)
      == (done + CodeIssues(links[i], seen) + LinkIssues(links[i], known, validUrl, maxLen))
         + Issues(links[i + 1..], NextSeen(seen, links[i]), known, validUrl, maxLen)
  {
    assert links[i..][1..] == links[i + 1..];
  }

  /** `validateJson` over the stored links: one pass in store order, tracking the codes seen, with
      one finding per failed check. */
  method Validate(links: seq<Link>, known: set<string>, validUrl: (string, int) -> bool, maxLen: int)
    returns (r: ValidationReport)
    ensures r.totalLinks == |links|
    ensures r.messages == Issues(links, {}, known, validUrl, maxLen)
    ensures r.issues == |r.messages|
  {
    var messages := [];
    var seen := {};
    var i := 0;
    while i < |links|
      invariant 0 <= i <= |links|
      invariant messages + Issues(links[i..], seen, known, validUrl, maxLen) == Issues(links, {}, known, validUrl, maxLen)
    {
      var l := links[i];
      IssuesStep(links, i, seen, known, validUrl, maxLen, messages);
      ghost var m0, s0 := messages, seen;
      if IsBlank(l.shortCode) {
        messages := messages + [MissingCode(l.id)];
      } else {
        if l.shortCode in seen {
          messages := messages + [DuplicateCode(l.shortCode, l.id)];
        }
        seen := seen + {l.shortCode};
      }
      assert messages == m0 + CodeIssues(l, s0) && seen == NextSeen(s0, l);
      messages := messages + LinkIssues(l, known, validUrl, maxLen);
      i := i + 1;
    }
    r := ValidationReport(|links|, |messages|, messages);
  }
}
