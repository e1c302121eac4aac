/** storage/LinksRepository.java: the authoritative in-memory list of links, the `L-######`
    identifier sequence restored at startup, lookups, owner-checked deletion and the four
    cleanup sweeps. The JSON file behind the cache is the ghost field `persisted`: a flush copies
    the cache into it, or leaves it as it was when the write fails (the failure is swallowed). */
module LinksStorage {
  import opened Wrappers
  import opened Seqs
  import opened Text
  import opened Model
  import opened TimeUtils

  // ---------- identifiers ----------

  const IdPrefix: string := "L-"

  /** What the startup scan reads from an id: the number after `L-` when `Long.parseLong`
      accepts it; `None` for a null id, another prefix or an unparsable suffix (all skipped). */
  function IdNumber(id: Option<string>): Option<int> {
    if id.Some? && StartsWith(id.value, IdPrefix)
    then ParseInteger(id.value[|IdPrefix|..], MinLong, MaxLong)
    else None
  }

  /** `String.format("L-%06d", n)`. */
  function FormatId(n: nat): (id: string)
    ensures StartsWith(id, IdPrefix) && |id| >= |IdPrefix| + 6
    ensures AllDigits(id[|IdPrefix|..])
  {
    var id := IdPrefix + ZeroPad(Decimal(n), 6);
    assert id[|IdPrefix|..] == ZeroPad(Decimal(n), 6);
    id
  }

  /** The value of the digits of a formatted id is its number, whatever the padding. */
  lemma FormatIdDigits(n: nat)
    ensures DigitsValue(FormatId(n)[|IdPrefix|..]) == n
  {
    assert FormatId(n)[|IdPrefix|..] == ZeroPad(Decimal(n), 6);
    ZeroPadValue(n, 6);
  }

  /** Reading back a minted id gives its number: the startup scan recognises every id that
      `NextId` can produce (within the range of a Java long). */
  lemma FormatIdRoundTrip(n: nat)
    requires n <= MaxLong
    ensures IdNumber(Some(FormatId(n))) == Some(n)
  {
    FormatIdDigits(n);
  }

  /** Distinct sequence values give distinct ids. */
  lemma FormatIdInjective(m: nat, n: nat)
    requires FormatId(m) == FormatId(n)
    ensures m == n
  {
    FormatIdDigits(m);
    FormatIdDigits(n);
  }

  /** `incrementAndGet` on a Java `long`: one more, wrapping from `Long.MAX_VALUE` to
      `Long.MIN_VALUE`. */
  function IncLong(n: int): (r: int)
    ensures MinLong <= n <= MaxLong ==> MinLong <= r <= MaxLong
  {
    if n == MaxLong then MinLong else n + 1
  }

  /** `String.format("L-%06d", n)` for any `long`: a negative number puts its sign in front of
      the zero padding, which then fills the five places left of the width. */
  function FormatSequence(n: int): (id: string)
    ensures StartsWith(id, IdPrefix)
    ensures n >= 0 ==> id == FormatId(n)
    ensures n < 0 ==> |id| > |IdPrefix| && id[|IdPrefix|] == '-'
  {
    if n >= 0 then FormatId(n) else IdPrefix + "-" + ZeroPad(Decimal(-n), 5)
  }

  /** The startup scan reads back the number of every id the sequence can mint, negative ones
      (after the wrap) included. */
  lemma FormatSequenceRoundTrip(n: int)
    requires MinLong <= n <= MaxLong
    ensures IdNumber(Some(FormatSequence(n))) == Some(n)
  {
    if n >= 0 {
      FormatIdRoundTrip(n);
    } else {
      var digits := ZeroPad(Decimal(-n), 5);
      var suffix := FormatSequence(n)[|IdPrefix|..];
      assert suffix == "-" + digits;
      assert suffix[1..] == digits;
      ZeroPadValue(-n, 5);
    }
  }

  /** Past `Long.MAX_VALUE` the sequence wraps to `Long.MIN_VALUE`, and the id minted then is
      "L--9223372036854775808", which reads back as that negative number. */
  lemma NextIdAfterMaxLong()
    ensures IncLong(MaxLong) == MinLong
    ensures FormatSequence(IncLong(MaxLong)) == "L--" + "9223372036854775808"
    ensures IdNumber(Some(FormatSequence(IncLong(MaxLong)))) == Some(MinLong)
  {
    FormatOfLongMin();
    FormatSequenceRoundTrip(MinLong);
  }

  lemma FormatOfLongMin()
    ensures FormatSequence(MinLong) == "L--" + "9223372036854775808"
  {
    DecimalOfLongMinMagnitude();
    var d := "9223372036854775808";
    assert FormatSequence(MinLong) == IdPrefix + "-" + ZeroPad(Decimal(-MinLong), 5);
    assert ZeroPad(d, 5) == d;
    assert IdPrefix + "-" == "L--";
  }

  /** The digits of the magnitude of `Long.MIN_VALUE`, one place at a time. */
  lemma DecimalOfLongMinMagnitude()
    ensures Decimal(-MinLong) == "9223372036854775808"
  {
    DecimalOfLongMinHead();
    assert Decimal(9223372036854) == Decimal(922337203685) + "4";
    assert Decimal(92233720368547) == Decimal(9223372036854) + "7";
    assert Decimal(922337203685477) == Decimal(92233720368547) + "7";
    assert Decimal(9223372036854775) == Decimal(922337203685477) + "5";
    assert Decimal(92233720368547758) == Decimal(9223372036854775) + "8";
    assert Decimal(922337203685477580) == Decimal(92233720368547758) + "0";
    assert Decimal(9223372036854775808) == Decimal(922337203685477580) + "8";
  }

  lemma DecimalOfLongMinHead()
    ensures Decimal(922337203685) == "922337203685"
  {
    DecimalOfLongMinTop();
    assert Decimal(9223372) == Decimal(922337) + "2";
    assert Decimal(92233720) == Decimal(9223372) + "0";
    assert Decimal(922337203) == Decimal(92233720) + "3";
    assert Decimal(9223372036) == Decimal(922337203) + "6";
    assert Decimal(92233720368) == Decimal(9223372036) + "8";
    assert Decimal(922337203685) == Decimal(92233720368) + "5";
  }

  lemma DecimalOfLongMinTop()
    ensures Decimal(922337) == "922337"
  {
    assert Decimal(92) == Decimal(9) + "2";
    assert Decimal(922) == Decimal(92) + "2";
    assert Decimal(9223) == Decimal(922) + "3";
    assert Decimal(92233) == Decimal(9223) + "3";
    assert Decimal(922337) == Decimal(92233) + "7";
  }

  /** The sequence value restored at startup: the largest number found by the id scan, or 0. */
  function RestoredSequence(links: seq<Link>): (r: int)
    ensures 0 <= r <= MaxLong
    ensures forall i :: 0 <= i < |links| && IdNumber(links[i].id).Some? ==> IdNumber(links[i].id).value <= r
    ensures r == 0 || exists i :: 0 <= i < |links| && IdNumber(links[i].id) == Some(r)
  {
    if |links| == 0 then 0
    else
      var prev := links[..|links| - 1];
      var m := RestoredSequence(prev);
      assert forall i :: 0 <= i < |prev| ==> links[i] == prev[i];
      match IdNumber(links[|links| - 1].id)
      case Some(n) => if n > m then n else m
      case None => m
  }

  /** After a restart, no id minted from the restored sequence collides with an id already in
      the store: every stored `L-` number is at most the restored value. */
  lemma {:induction false} RestoredIdsAreFresh(links: seq<Link>, k: nat)
    requires k >= 1 && RestoredSequence(links) + k <= MaxLong
    ensures forall i :: 0 <= i < |links| ==> links[i].id != Some(FormatId(RestoredSequence(links) + k))
  {
    var n := RestoredSequence(links) + k;
    FormatIdRoundTrip(n);
    forall i | 0 <= i < |links|
      ensures links[i].id != Some(FormatId(n))
    {
      assert IdNumber(links[i].id).Some? ==> IdNumber(links[i].id).value < n;
    }
  }

  /** A store seeded with ids 3, 7 and 2, in that order, restarts its sequence at 7. */
  lemma RestoreFromSeededIds(a: Link, b: Link, c: Link)
    requires a.id == Some(FormatId(3)) && b.id == Some(FormatId(7)) && c.id == Some(FormatId(2))
    ensures RestoredSequence([a, b, c]) == 7
  {
    FormatIdRoundTrip(3);
    FormatIdRoundTrip(7);
    FormatIdRoundTrip(2);
    var s := [a, b, c];
    assert IdNumber(s[1].id) == Some(7);
    assert forall i :: 0 <= i < |s| ==> IdNumber(s[i].id).Some? && IdNumber(s[i].id).value <= 7;
  }

  /** The ids minted next after a restored 7. */
  lemma IdsAfterSeven()
    ensures FormatId(8) == "L-000008" && FormatId(9) == "L-000009"
  {
    assert Zeros(5) == "00000";
  }

  // ---------- lookups ----------

  /** Position of the first link with this short code. */
  function IndexOfCode(links: seq<Link>, code: string): (r: Option<nat>)
    ensures r.None? <==> forall i :: 0 <= i < |links| ==> links[i].shortCode != code
    ensures r.Some? ==> (r.value < |links| && links[r.value].shortCode == code
      && forall j :: 0 <= j < r.value ==> links[j].shortCode != code)
  {
    FirstIndex(links, (l: Link) => l.shortCode == code)
  }

  /** Position of the first link with this short code and this owner. */
  function IndexOfCodeAndOwner(links: seq<Link>, code: string, owner: string): (r: Option<nat>)
    ensures r.None? <==> forall i :: 0 <= i < |links| ==> !(links[i].shortCode == code && links[i].ownerUuid == owner)
    ensures r.Some? ==> (r.value < |links| && links[r.value].shortCode == code && links[r.value].ownerUuid == owner
      && forall j :: 0 <= j < r.value ==> !(links[j].shortCode == code && links[j].ownerUuid == owner))
  {
    FirstIndex(links, (l: Link) => l.shortCode == code && l.ownerUuid == owner)
  }

  /** The links of one owner, in store order. */
  function OwnedBy(links: seq<Link>, owner: string): (r: seq<Link>)
    ensures forall l :: l in r <==> l in links && l.ownerUuid == owner
  {
    var p := (l: Link) => l.ownerUuid == owner;
    FilterMembers(links, p);
    Filter(links, p)
  }

  /** The links of everybody else, in store order. */
  function NotOwnedBy(links: seq<Link>, owner: string): seq<Link> {
    Filter(links, (l: Link) => l.ownerUuid != owner)
  }

  /** `s` without its element at position `k`. */
  function RemoveAt(s: seq<Link>, k: nat): (r: seq<Link>)
    requires k < |s|
    ensures |r| == |s| - 1
    ensures forall j :: 0 <= j < k ==> r[j] == s[j]
    ensures forall j :: k <= j < |r| ==> r[j] == s[j + 1]
  {
    s[..k] + s[k + 1..]
  }

  // ---------- cleanup sweeps ----------

  /** What a sweep looks for: expiry at a given instant, or a reached click quota. */
  datatype Rule = ByExpiry(now: int) | ByQuota

  /** Which links a sweep looks at: all of them, or those of one owner. */
  datatype Scope = AllOwners | OwnedByUser(owner: string)

  /** The expiry test the sweeps use: an expiry instant is set and it has been reached. */
  predicate ExpiredAt(l: Link, now: int) {
    l.expiresAt.Some? && IsExpired(now, l.expiresAt.value)
  }

  /** The quota test: a limit is set and the clicks have reached it. */
  predicate AtQuota(l: Link) {
    l.clickLimit.Some? && l.clickCount >= l.clickLimit.value
  }

  predicate Hits(rule: Rule, l: Link) {
    match rule
    case ByExpiry(now) => ExpiredAt(l, now)
    case ByQuota => AtQuota(l)
  }

  predicate InScope(scope: Scope, l: Link) {
    scope.AllOwners? || l.ownerUuid == scope.owner
  }

  /** The links a sweep acts on. */
  predicate Selected(rule: Rule, scope: Scope, l: Link) {
    InScope(scope, l) && Hits(rule, l)
  }

  /** The status a soft sweep writes. */
  function Mark(rule: Rule): Status {
    match rule
    case ByExpiry(_) => Expired
    case ByQuota => LimitReached
  }

  /** A soft sweep changes a selected link unless it is DELETED or already carries the mark. */
  predicate SoftChanges(rule: Rule, scope: Scope, l: Link) {
    Selected(rule, scope, l) && l.status != Deleted && l.status != Mark(rule)
  }

  function SoftMarkOne(rule: Rule, scope: Scope, l: Link): Link {
    if SoftChanges(rule, scope, l) then l.(status := Mark(rule)) else l
  }

  /** The store after a soft sweep. */
  function SoftSweep(links: seq<Link>, rule: Rule, scope: Scope): (r: seq<Link>)
    ensures |r| == |links|
    ensures forall i :: 0 <= i < |links| ==> r[i] == SoftMarkOne(rule, scope, links[i])
  {
    seq(|links|, i requires 0 <= i < |links| => SoftMarkOne(rule, scope, links[i]))
  }

  /** The count a soft sweep returns. */
  function SoftCount(links: seq<Link>, rule: Rule, scope: Scope): nat {
    Count(links, ChangedBy(rule, scope))
  }

  function ChangedBy(rule: Rule, scope: Scope): Link -> bool {
    (l: Link) => SoftChanges(rule, scope, l)
  }

  /** The store after a hard sweep: the links that are not selected, in store order. */
  function HardSweep(links: seq<Link>, rule: Rule, scope: Scope): seq<Link> {
    Filter(links, (l: Link) => !Selected(rule, scope, l))
  }

  /** One more link at the end of the input extends the hard sweep's output by at most it. */
  lemma HardSweepSnoc(links: seq<Link>, x: Link, rule: Rule, scope: Scope)
    ensures HardSweep(links + [x], rule, scope)
      == HardSweep(links, rule, scope) + (if Selected(rule, scope, x) then [] else [x])
  {
    FilterSnoc(links, x, (l: Link) => !Selected(rule, scope, l));
  }

  /** A soft sweep writes only the status, only the rule's mark, and only on selected links
      that were neither DELETED nor already marked. */
  lemma SoftSweepChangesOnlyStatus(links: seq<Link>, rule: Rule, scope: Scope, i: nat)
    requires i < |links|
    ensures SoftSweep(links, rule, scope)[i] == links[i].(status := SoftSweep(links, rule, scope)[i].status)
    ensures SoftSweep(links, rule, scope)[i].status != links[i].status <==> SoftChanges(rule, scope, links[i])
    ensures SoftSweep(links, rule, scope)[i].status != links[i].status ==> SoftSweep(links, rule, scope)[i].status == Mark(rule)
  {
  }

  /** The soft count is zero exactly when the soft sweep leaves the store as it was. */
  lemma {:induction false} SoftCountZeroIffUnchanged(links: seq<Link>, rule: Rule, scope: Scope)
    ensures SoftCount(links, rule, scope) == 0 <==> SoftSweep(links, rule, scope) == links
  {
    var r := SoftSweep(links, rule, scope);
    CountZero(links, ChangedBy(rule, scope));
    if SoftCount(links, rule, scope) == 0 {
      forall i | 0 <= i < |links| ensures r[i] == links[i] {
        assert links[i] in links;
      }
    } else {
      var x :| x in links && SoftChanges(rule, scope, x);
      var i :| 0 <= i < |links| && links[i] == x;
      assert r[i].status != links[i].status;
    }
  }

  /** Soft sweeps are idempotent: an immediate second run with the same rule changes nothing
      and returns 0. */
  lemma {:induction false} SoftSweepIdempotent(links: seq<Link>, rule: Rule, scope: Scope)
    ensures SoftCount(SoftSweep(links, rule, scope), rule, scope) == 0
    ensures SoftSweep(SoftSweep(links, rule, scope), rule, scope) == SoftSweep(links, rule, scope)
  {
    var r := SoftSweep(links, rule, scope);
    forall x | x in r ensures !SoftChanges(rule, scope, x) {
      var i :| 0 <= i < |r| && r[i] == x;
      assert r[i] == SoftMarkOne(rule, scope, links[i]);
    }
    SoftCountZeroIffUnchanged(r, rule, scope);
  }

  /** A hard sweep keeps exactly the links that are not selected (whatever their status,
      DELETED included), in order, and the number removed is the number selected. */
  lemma HardSweepRemovesSelected(links: seq<Link>, rule: Rule, scope: Scope)
    ensures forall l :: l in HardSweep(links, rule, scope) <==> l in links && !Selected(rule, scope, l)
    ensures |links| - |HardSweep(links, rule, scope)| == Count(links, (l: Link) => Selected(rule, scope, l))
  {
    FilterSplit(links, (l: Link) => Selected(rule, scope, l), (l: Link) => !Selected(rule, scope, l));
    FilterMembers(links, (l: Link) => !Selected(rule, scope, l));
  }

  /** An owner-scoped hard sweep leaves every other owner's links in place, in order. */
  lemma OwnerHardSweepSparesOthers(links: seq<Link>, rule: Rule, owner: string)
    ensures NotOwnedBy(HardSweep(links, rule, OwnedByUser(owner)), owner) == NotOwnedBy(links, owner)
  {
    FilterOfFilter(links, (l: Link) => !Selected(rule, OwnedByUser(owner), l), (l: Link) => l.ownerUuid != owner);
  }

  /** An owner-scoped soft sweep leaves every other owner's links untouched. */
  lemma OwnerSoftSweepSparesOthers(links: seq<Link>, rule: Rule, owner: string, i: nat)
    requires i < |links| && links[i].ownerUuid != owner
    ensures SoftSweep(links, rule, OwnedByUser(owner))[i] == links[i]
  {
  }

  // ---------- the repository ----------

  /** `LinksRepository`: the links file behind an in-memory list, with the counter that numbers
      new links. */
  class LinksRepository {
    /** The in-memory list, authoritative for every read. */
    var cache: seq<Link>
    /** The last number handed out by `NextId` (an AtomicLong in the source). */
    var sequence: int
    /** The content of the backing file as of the last successful flush. */
    ghost var persisted: seq<Link>

    /** The sequence is a Java `long`. */
    ghost predicate Valid()
      reads this
    {
      MinLong <= sequence <= MaxLong
    }

    /** Loads `loaded` (the file's content, or the empty default) and restores the sequence
        from the largest `L-` number found. */
    constructor (loaded: seq<Link>)
      ensures Valid()
      ensures cache == loaded && persisted == loaded
      ensures sequence == RestoredSequence(loaded)
    {
      cache := loaded;
      persisted := loaded;
      var max := 0;
      var i := 0;
      while i < |loaded|
        invariant 0 <= i <= |loaded|
        invariant max == RestoredSequence(loaded[..i])
      {
        assert loaded[..i + 1][..i] == loaded[..i];
        var n := IdNumber(loaded[i].id);
        if n.Some? && n.value > max {
          max := n.value;
        }
        i := i + 1;
      }
      assert loaded[..|loaded|] == loaded;
      sequence := max;
    }

    /** Writes the cache to the file; a failed write is swallowed and leaves the file as it was. */
    method Flush()
      modifies this`persisted
      ensures persisted == cache || persisted == old(persisted)
    {
      ghost var written: bool :| true;
      if written {
        persisted := cache;
      }
    }

    /** Advances the sequence by one, as a `long`, and formats it. */
    method NextId() returns (id: string)
      requires Valid()
      modifies this`sequence
      ensures Valid()
      ensures sequence == IncLong(old(sequence))
      ensures id == FormatSequence(sequence)
    {
      sequence := IncLong(sequence);
      id := FormatSequence(sequence);
    }

    /** Appends the link and flushes. */
    method Add(link: Link)
      modifies this`cache, this`persisted
      ensures cache == old(cache) + [link]
      ensures persisted == cache || persisted == old(persisted)
    {
      cache := cache + [link];
      Flush();
    }

    /** The source mutates a cached link through its reference and then calls `update`, which
        only flushes; here the mutated value replaces the link at its position `i`. */
    method Update(i: nat, link: Link)
      requires i < |cache|
      modifies this`cache, this`persisted
      ensures cache == old(cache)[i := link]
      ensures persisted == cache || persisted == old(persisted)
    {
      cache := cache[i := link];
      Flush();
    }

    /** A copy of the whole cache. */
    method ListAll() returns (r: seq<Link>)
      ensures r == cache
    {
      r := cache;
    }

    /** The first cached link with this code; `None` exactly when no link has it. */
    function FindByShortCode(code: string): (r: Option<Link>)
      reads this
      ensures r.None? <==> forall l :: l in cache ==> l.shortCode != code
      ensures r.Some? ==> r.value in cache && r.value.shortCode == code
      ensures r.Some? ==> r.value == cache[IndexOfCode(cache, code).value]
    {
      var k := IndexOfCode(cache, code);
      if k.None? then None else Some(cache[k.value])
    }

    /** A new list of the owner's links, in cache order. */
    method ListByOwner(owner: string) returns (r: seq<Link>)
      ensures r == OwnedBy(cache, owner)
      ensures forall l :: l in r <==> l in cache && l.ownerUuid == owner
    {
      r := [];
      var i := 0;
      while i < |cache|
        invariant 0 <= i <= |cache|
        invariant r == OwnedBy(cache[..i], owner)
      {
        FilterSnoc(cache[..i], cache[i], (l: Link) => l.ownerUuid == owner);
        assert cache[..i + 1] == cache[..i] + [cache[i]];
        if cache[i].ownerUuid == owner {
          r := r + [cache[i]];
        }
        i := i + 1;
      }
      assert cache[..i] == cache;
    }

    /** Removes the first link that has both this code and this owner, flushing only then. */
    method DeleteByShortCodeForOwner(code: string, owner: string) returns (removed: bool)
      modifies this`cache, this`persisted
      ensures removed <==> IndexOfCodeAndOwner(old(cache), code, owner).Some?
      ensures !removed ==> cache == old(cache) && persisted == old(persisted)
      ensures removed ==> cache == RemoveAt(old(cache), IndexOfCodeAndOwner(old(cache), code, owner).value)
      ensures removed ==> persisted == cache || persisted == old(persisted)
    {
      var i := 0;
      while i < |cache|
        invariant 0 <= i <= |cache|
        invariant forall j :: 0 <= j < i ==> !(cache[j].shortCode == code && cache[j].ownerUuid == owner)
      {
        if cache[i].shortCode == code && cache[i].ownerUuid == owner {
          cache := RemoveAt(cache, i);
          Flush();
          return true;
        }
        i := i + 1;
      }
      return false;
    }

    /** Hard mode of a sweep: the iterator loop that removes every selected link. */
    method RemoveSelected(rule: Rule, scope: Scope) returns (count: nat)
      modifies this`cache
      ensures cache == HardSweep(old(cache), rule, scope)
      ensures count == |old(cache)| - |cache|
    {
      var links := cache;
      var kept := [];
      count := 0;
      var i := 0;
      while i < |links|
        invariant 0 <= i <= |links|
        invariant kept == HardSweep(links[..i], rule, scope)
        invariant count + |kept| == i
      {
        HardSweepSnoc(links[..i], links[i], rule, scope);
        assert links[..i + 1] == links[..i] + [links[i]];
        if Selected(rule, scope, links[i]) {
          count := count + 1;
        } else {
          kept := kept + [links[i]];
        }
        i := i + 1;
      }
      assert links[..i] == links;
      cache := kept;
    }

    /** Soft mode of a sweep: the loop that writes the mark on every selected link that is
        neither DELETED nor already marked, counting those it changes. */
    method MarkSelected(rule: Rule, scope: Scope) returns (count: nat)
      modifies this`cache
      ensures cache == SoftSweep(old(cache), rule, scope)
      ensures count == SoftCount(old(cache), rule, scope)
    {
      var links := cache;
      count := 0;
      var i := 0;
      while i < |links|
        invariant 0 <= i <= |links| && |cache| == |links|
        invariant forall k :: 0 <= k < i ==> cache[k] == SoftMarkOne(rule, scope, links[k])
        invariant forall k :: i <= k < |links| ==> cache[k] == links[k]
        invariant count == CountUpTo(links, i, ChangedBy(rule, scope))
      {
        var l := cache[i];
        if SoftChanges(rule, scope, l) {
          cache := cache[i := l.(status := Mark(rule))];
          count := count + 1;
        }
        i := i + 1;
      }
      CountUpToIsCount(links, i, ChangedBy(rule, scope));
      assert links[..i] == links;
    }

    /** The common body of the four sweeps: soft-mark or hard-remove the selected links,
        count them, and flush only when the count is positive. */
    method Sweep(rule: Rule, scope: Scope, hardDelete: bool) returns (count: nat)
      modifies this`cache, this`persisted
      ensures cache == if hardDelete then HardSweep(old(cache), rule, scope) else SoftSweep(old(cache), rule, scope)
      ensures count == if hardDelete then |old(cache)| - |cache| else SoftCount(old(cache), rule, scope)
      ensures count == 0 ==> persisted == old(persisted)
      ensures count > 0 ==> persisted == cache || persisted == old(persisted)
    {
      if hardDelete {
        count := RemoveSelected(rule, scope);
      } else {
        count := MarkSelected(rule, scope);
      }
      if count > 0 {
        Flush();
      }
    }

    /** `cleanupExpired(now, hardDelete)`. */
    method CleanupExpired(now: int, hardDelete: bool) returns (count: nat)
      modifies this`cache, this`persisted
      ensures cache == if hardDelete then HardSweep(old(cache), ByExpiry(now), AllOwners) else SoftSweep(old(cache), ByExpiry(now), AllOwners)
      ensures count == if hardDelete then |old(cache)| - |cache| else SoftCount(old(cache), ByExpiry(now), AllOwners)
      ensures count == 0 ==> persisted == old(persisted)
      ensures count > 0 ==> persisted == cache || persisted == old(persisted)
    {
      count := Sweep(ByExpiry(now), AllOwners, hardDelete);
    }

    /** `cleanupLimitReached(hardDelete)`. */
    method CleanupLimitReached(hardDelete: bool) returns (count: nat)
      modifies this`cache, this`persisted
      ensures cache == if hardDelete then HardSweep(old(cache), ByQuota, AllOwners) else SoftSweep(old(cache), ByQuota, AllOwners)
      ensures count == if hardDelete then |old(cache)| - |cache| else SoftCount(old(cache), ByQuota, AllOwners)
      ensures count == 0 ==> persisted == old(persisted)
      ensures count > 0 ==> persisted == cache || persisted == old(persisted)
    {
      count := Sweep(ByQuota, AllOwners, hardDelete);
    }

    /** `cleanupExpiredForOwner(now, owner, hardDelete)`. */
    method CleanupExpiredForOwner(now: int, owner: string, hardDelete: bool) returns (count: nat)
      modifies this`cache, this`persisted
      ensures cache == if hardDelete then HardSweep(old(cache), ByExpiry(now), OwnedByUser(owner)) else SoftSweep(old(cache), ByExpiry(now), OwnedByUser(owner))
      ensures count == if hardDelete then |old(cache)| - |cache| else SoftCount(old(cache), ByExpiry(now), OwnedByUser(owner))
      ensures count == 0 ==> persisted == old(persisted)
      ensures count > 0 ==> persisted == cache || persisted == old(persisted)
    {
      count := Sweep(ByExpiry(now), OwnedByUser(owner), hardDelete);
    }

    /** `cleanupLimitReachedForOwner(owner, hardDelete)`. */
    method CleanupLimitReachedForOwner(owner: string, hardDelete: bool) returns (count: nat)
      modifies this`cache, this`persisted
      ensures cache == if hardDelete then HardSweep(old(cache), ByQuota, OwnedByUser(owner)) else SoftSweep(old(cache), ByQuota, OwnedByUser(owner))
      ensures count == if hardDelete then |old(cache)| - |cache| else SoftCount(old(cache), ByQuota, OwnedByUser(owner))
      ensures count == 0 ==> persisted == old(persisted)
      ensures count > 0 ==> persisted == cache || persisted == old(persisted)
    {
      count := Sweep(ByQuota, OwnedByUser(owner), hardDelete);
    }
  }
}
