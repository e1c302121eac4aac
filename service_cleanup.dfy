/** The service's own cleanup sweeps (`cleanupExpiredAndLog`, `cleanupLimitReachedAndLog` in
    service/ShortLinkService.java) as functions on the store. Unlike the repository's sweeps they
    skip DELETED links in both modes, and in hard mode they delete one snapshot entry at a time
    through the first store entry with the same code and owner. */
module Cleanup {
  import opened Wrappers
  import opened Seqs
  import opened Model
  import opened LinksStorage

  /** The links a service sweep acts on: not DELETED, and hit by the rule. */
  predicate Affected(rule: Rule, l: Link) {
    l.status != Deleted && Hits(rule, l)
  }

  /** The list the sweep iterates: a copy of the whole store, or of the owner's links. */
  function Snapshot(links: seq<Link>, scope: Scope): (r: seq<Link>)
    ensures forall x :: x in r <==> x in links && InScope(scope, x)
  {
    match scope
    case AllOwners => links
    case OwnedByUser(owner) => OwnedBy(links, owner)
  }

  /** Hard mode, one snapshot entry: an affected entry is deleted through
      `deleteByShortCodeForOwner`, i.e. the first store entry with its code and owner goes. */
  function DeleteOne(links: seq<Link>, l: Link, rule: Rule): (r: seq<Link>)
    ensures |r| == |links| || |r| == |links| - 1
  {
    if !Affected(rule, l) then links
    else match IndexOfCodeAndOwner(links, l.shortCode, l.ownerUuid)
      case Some(k) => RemoveAt(links, k)
      case None => links
  }

  /** Hard mode over the whole snapshot, in snapshot order. */
  function DeleteEach(links: seq<Link>, snap: seq<Link>, rule: Rule): (r: seq<Link>)
    ensures |r| <= |links|
    decreases |snap|
  {
    if snap == [] then links else DeleteEach(DeleteOne(links, snap[0], rule), snap[1..], rule)
  }

  /** Hard mode, what each step reports: the snapshot entries whose deletion took place, in
      snapshot order. */
  function DeletedEntries(links: seq<Link>, snap: seq<Link>, rule: Rule): (r: seq<Link>)
    ensures |r| == |links| - |DeleteEach(links, snap, rule)|
    ensures forall x :: x in r ==> x in snap && Affected(rule, x)
    decreases |snap|
  {
    if snap == [] then []
    else
      var d := DeleteOne(links, snap[0], rule);
      (if |d| < |links| then [snap[0]] else []) + DeletedEntries(d, snap[1..], rule)
  }

  /** The store after a service sweep. Soft mode is the repository's soft sweep: both mark only
      links that are in scope, hit, not DELETED and not already marked. */
  function ServiceSweep(links: seq<Link>, rule: Rule, scope: Scope, hardDelete: bool): seq<Link> {
    if hardDelete then DeleteEach(links, Snapshot(links, scope), rule) else SoftSweep(links, rule, scope)
  }

  /** The links a service sweep reports, one event each: in hard mode the snapshot entries whose
      deletion took place, in soft mode the links whose status it changed, in store order. */
  function Swept(links: seq<Link>, rule: Rule, scope: Scope, hardDelete: bool): (r: seq<Link>)
    ensures hardDelete ==> |r| == |links| - |ServiceSweep(links, rule, scope, true)|
    ensures !hardDelete ==> |r| == SoftCount(links, rule, scope)
  {
    if hardDelete then DeletedEntries(links, Snapshot(links, scope), rule) else Filter(links, ChangedBy(rule, scope))
  }

  // ---------- hard mode equals a filter when codes are unique ----------

  /** No two links share a short code (what code generation ensures). */
  predicate UniqueCodes(links: seq<Link>) {
    forall i, j :: 0 <= i < j < |links| ==> links[i].shortCode != links[j].shortCode
  }

  predicate Spared(snap: seq<Link>, rule: Rule, x: Link) {
    !(x in snap && Affected(rule, x))
  }

  function SparedBy(snap: seq<Link>, rule: Rule): Link -> bool {
    (x: Link) => Spared(snap, rule, x)
  }

  /** What survives a hard service sweep: everything outside the scope or not affected. */
  function KeptBy(rule: Rule, scope: Scope): Link -> bool {
    (x: Link) => !(InScope(scope, x) && Affected(rule, x))
  }

  /** A filtered store keeps its codes unique. */
  lemma {:induction false} FilterKeepsUniqueCodes(links: seq<Link>, p: Link -> bool)
    requires UniqueCodes(links)
    ensures UniqueCodes(Filter(links, p))
    decreases |links|
  {
    if links != [] {
      var init := links[..|links| - 1];
      var x := links[|links| - 1];
      assert links == init + [x];
      FilterKeepsUniqueCodes(init, p);
      FilterSnoc(init, x, p);
      FilterMembers(init, p);
      forall y | y in Filter(init, p) ensures y.shortCode != x.shortCode {
        var i :| 0 <= i < |init| && init[i] == y;
      }
    }
  }

  /** Where a link of a store with unique codes sits: the first entry with its code and owner. */
  lemma {:induction false} IndexOfMember(links: seq<Link>, l: Link)
    requires UniqueCodes(links) && l in links
    ensures IndexOfCodeAndOwner(links, l.shortCode, l.ownerUuid).Some?
    ensures links[IndexOfCodeAndOwner(links, l.shortCode, l.ownerUuid).value] == l
  {
    var m :| 0 <= m < |links| && links[m] == l;
    var k := IndexOfCodeAndOwner(links, l.shortCode, l.ownerUuid).value;
    assert k <= m;
    assert links[k].shortCode == links[m].shortCode;
  }

  /** Removing one entry keeps the codes unique. */
  lemma RemoveAtKeepsUniqueCodes(links: seq<Link>, k: nat)
    requires UniqueCodes(links) && k < |links|
    ensures UniqueCodes(RemoveAt(links, k))
  {
    var r := RemoveAt(links, k);
    forall i, j | 0 <= i < j < |r| ensures r[i].shortCode != r[j].shortCode {
      var i' := if i < k then i else i + 1;
      var j' := if j < k then j else j + 1;
      assert r[i] == links[i'] && r[j] == links[j'];
    }
  }

  /** With unique codes, removing entry k keeps exactly the links whose code differs from its. */
  lemma RemoveAtOthers(links: seq<Link>, k: nat)
    requires UniqueCodes(links) && k < |links|
    ensures forall x :: x in RemoveAt(links, k) ==> x in links && x.shortCode != links[k].shortCode
    ensures forall x :: x in links && x.shortCode != links[k].shortCode ==> x in RemoveAt(links, k)
  {
    var r := RemoveAt(links, k);
    forall x | x in r ensures x in links && x.shortCode != links[k].shortCode {
      var j :| 0 <= j < |r| && r[j] == x;
      if j < k { assert links[j] == x; } else { assert links[j + 1] == x; }
    }
    forall x | x in links && x.shortCode != links[k].shortCode ensures x in r {
      var j :| 0 <= j < |links| && links[j] == x;
      if j < k { assert r[j] == x; } else { assert r[j - 1] == x; }
    }
  }

  /** Filtering after removing entry k by `q` is filtering by `p` when `p` drops entry k and the
      two agree on every other entry. */
  lemma FilterRemoveAt(links: seq<Link>, k: nat, p: Link -> bool, q: Link -> bool)
    requires k < |links| && !p(links[k])
    requires forall x :: x in RemoveAt(links, k) ==> p(x) == q(x)
    ensures Filter(RemoveAt(links, k), q) == Filter(links, p)
  {
    var before, after := links[..k], links[k + 1..];
    assert links == before + [links[k]] + after;
    assert RemoveAt(links, k) == before + after;
    FilterAgree(before, q, p);
    FilterAgree(after, q, p);
    FilterAppend(before + [links[k]], after, p);
    FilterSnoc(before, links[k], p);
    FilterAppend(before, after, q);
  }

  /** Deleting one affected snapshot entry from a store with unique codes removes exactly that
      link; an unaffected one changes nothing. */
  lemma {:induction false} DeleteOneStep(links: seq<Link>, snap: seq<Link>, rule: Rule)
    requires snap != [] && UniqueCodes(links) && UniqueCodes(snap) && snap[0] in links
    ensures UniqueCodes(DeleteOne(links, snap[0], rule))
    ensures forall x :: x in snap[1..] && x in links ==> x in DeleteOne(links, snap[0], rule)
    ensures Filter(DeleteOne(links, snap[0], rule), SparedBy(snap[1..], rule)) == Filter(links, SparedBy(snap, rule))
  {
    var l := snap[0];
    var rest := snap[1..];
    var p := SparedBy(snap, rule);
    var q := SparedBy(rest, rule);
    forall x | x in rest ensures x.shortCode != l.shortCode {
      var j :| 0 <= j < |rest| && rest[j] == x;
      assert snap[j + 1] == x;
    }
    if !Affected(rule, l) {
      FilterAgree(links, q, p);
    } else {
      IndexOfMember(links, l);
      var k := IndexOfCodeAndOwner(links, l.shortCode, l.ownerUuid).value;
      var r := RemoveAt(links, k);
      assert DeleteOne(links, l, rule) == r;
      RemoveAtKeepsUniqueCodes(links, k);
      RemoveAtOthers(links, k);
      assert snap == [l] + rest;
      FilterRemoveAt(links, k, p, q);
    }
  }

  /** Hard mode as written equals removing, in one pass, every affected snapshot entry, as long
      as codes are unique in the store and in the snapshot and the snapshot is drawn from the
      store. */
  lemma {:induction false} DeleteEachIsFilter(links: seq<Link>, snap: seq<Link>, rule: Rule)
    requires UniqueCodes(links) && UniqueCodes(snap)
    requires forall x :: x in snap ==> x in links
    ensures DeleteEach(links, snap, rule) == Filter(links, SparedBy(snap, rule))
    decreases |snap|
  {
    if snap == [] {
      FilterAllPass(links, SparedBy(snap, rule));
    } else {
      DeleteOneStep(links, snap, rule);
      var rest := snap[1..];
      assert UniqueCodes(rest) by {
        forall i, j | 0 <= i < j < |rest| ensures rest[i].shortCode != rest[j].shortCode {
          assert rest[i] == snap[i + 1] && rest[j] == snap[j + 1];
        }
      }
      DeleteEachIsFilter(DeleteOne(links, snap[0], rule), rest, rule);
    }
  }

  /** With unique codes, a hard service sweep removes exactly the in-scope, affected links and
      keeps the rest in store order. */
  lemma ServiceHardSweepIsFilter(links: seq<Link>, rule: Rule, scope: Scope)
    requires UniqueCodes(links)
    ensures ServiceSweep(links, rule, scope, true) == Filter(links, KeptBy(rule, scope))
    ensures forall x :: (x in ServiceSweep(links, rule, scope, true)
                         <==> x in links && !(InScope(scope, x) && Affected(rule, x)))
  {
    var snap := Snapshot(links, scope);
    if scope.OwnedByUser? {
      FilterKeepsUniqueCodes(links, (l: Link) => l.ownerUuid == scope.owner);
    }
    DeleteEachIsFilter(links, snap, rule);
    FilterAgree(links, SparedBy(snap, rule), KeptBy(rule, scope));
    FilterMembers(links, KeptBy(rule, scope));
  }

  function AffectedBy(rule: Rule): Link -> bool {
    (x: Link) => Affected(rule, x)
  }

  /** What a service sweep acts on: the in-scope, affected links. */
  function SweptBy(rule: Rule, scope: Scope): Link -> bool {
    (x: Link) => InScope(scope, x) && Affected(rule, x)
  }

  /** With unique codes in the store and the snapshot, and the snapshot drawn from the store,
      every affected snapshot entry is deleted and reported, in snapshot order. */
  lemma {:induction false} DeletedEntriesIsFilter(links: seq<Link>, snap: seq<Link>, rule: Rule)
    requires UniqueCodes(links) && UniqueCodes(snap)
    requires forall x :: x in snap ==> x in links
    ensures DeletedEntries(links, snap, rule) == Filter(snap, AffectedBy(rule))
    decreases |snap|
  {
    if snap != [] {
      var l, rest := snap[0], snap[1..];
      var d := DeleteOne(links, l, rule);
      DeleteOneStep(links, snap, rule);
      assert UniqueCodes(rest) by {
        forall i, j | 0 <= i < j < |rest| ensures rest[i].shortCode != rest[j].shortCode {
          assert rest[i] == snap[i + 1] && rest[j] == snap[j + 1];
        }
      }
      DeletedEntriesIsFilter(d, rest, rule);
      if Affected(rule, l) {
        IndexOfMember(links, l);
      }
      assert (|d| < |links|) == Affected(rule, l);
      assert snap == [l] + rest;
      FilterAppend([l], rest, AffectedBy(rule));
      FilterSnoc([], l, AffectedBy(rule));
      assert [] + [l] == [l];
    }
  }

  /** With unique codes, a hard service sweep reports exactly the links it removes: the
      in-scope, affected links, in store order. */
  lemma ServiceHardSweepReports(links: seq<Link>, rule: Rule, scope: Scope)
    requires UniqueCodes(links)
    ensures DeletedEntries(links, Snapshot(links, scope), rule) == Filter(links, SweptBy(rule, scope))
  {
    var snap := Snapshot(links, scope);
    if scope.OwnedByUser? {
      var p := (l: Link) => l.ownerUuid == scope.owner;
      FilterKeepsUniqueCodes(links, p);
      DeletedEntriesIsFilter(links, snap, rule);
      FilterAgree(snap, AffectedBy(rule), SweptBy(rule, scope));
      FilterOfFilter(links, p, SweptBy(rule, scope));
    } else {
      DeletedEntriesIsFilter(links, snap, rule);
      FilterAgree(links, AffectedBy(rule), SweptBy(rule, scope));
    }
  }

  /** Whichever the mode, a sweep over a store with unique codes reports, in store order, exactly
      the links it acts on: in hard mode the in-scope affected ones, which it removes; in soft
      mode the ones whose status it changes. */
  lemma SweptIsFilter(links: seq<Link>, rule: Rule, scope: Scope, hardDelete: bool)
    requires hardDelete ==> UniqueCodes(links)
    ensures Swept(links, rule, scope, hardDelete)
            == Filter(links, if hardDelete then SweptBy(rule, scope) else ChangedBy(rule, scope))
    ensures forall x :: x in Swept(links, rule, scope, hardDelete) <==>
      x in links && InScope(scope, x) && x.status != Deleted && Hits(rule, x) && (hardDelete || x.status != Mark(rule))
  {
    if hardDelete {
      ServiceHardSweepReports(links, rule, scope);
      FilterMembers(links, SweptBy(rule, scope));
    } else {
      FilterMembers(links, ChangedBy(rule, scope));
    }
  }

  /** With unique codes, a hard service sweep never removes a DELETED link, where the
      repository's own hard sweep would. */
  lemma ServiceHardSweepKeepsDeleted(links: seq<Link>, rule: Rule, scope: Scope, x: Link)
    requires UniqueCodes(links) && x in links && x.status == Deleted
    ensures x in ServiceSweep(links, rule, scope, true)
    ensures Selected(rule, scope, x) ==> x !in HardSweep(links, rule, scope)
  {
    ServiceHardSweepIsFilter(links, rule, scope);
    HardSweepRemovesSelected(links, rule, scope);
  }

  /** With duplicate codes the hard mode can remove the wrong entry: here the unexpired first
      entry goes and the expired second one, which the sweep was after, stays. */
  lemma DuplicateCodesDeleteFirstMatch(a: Link, b: Link, now: int)
    requires a.shortCode == b.shortCode && a.ownerUuid == b.ownerUuid
    requires a.status == Active && a.expiresAt == Some(now + 1)
    requires b.status == Active && b.expiresAt == Some(now)
    ensures ServiceSweep([a, b], ByExpiry(now), AllOwners, true) == [b]
  {
    var rule := ByExpiry(now);
    assert Snapshot([a, b], AllOwners) == [a, b];
    assert !Affected(rule, a);
    assert DeleteOne([a, b], a, rule) == [a, b];
    assert IndexOfCodeAndOwner([a, b], b.shortCode, b.ownerUuid) == Some(0);
    assert DeleteOne([a, b], b, rule) == [b];
    assert [a, b][1..] == [b];
    assert [b][1..] == [];
    assert DeleteEach([b], [], rule) == [b];
    assert DeleteEach([a, b], [b], rule) == [b];
  }

  /** Without unique codes a hard sweep can remove a DELETED link: the expired second entry is
      deleted through the first entry with its code and owner, which is the DELETED one. */
  lemma DuplicateCodesDeleteDeletedLink(d: Link, e: Link, now: int)
    requires d.shortCode == e.shortCode && d.ownerUuid == e.ownerUuid
    requires d.status == Deleted
    requires e.status == Active && e.expiresAt == Some(now)
    ensures ServiceSweep([d, e], ByExpiry(now), AllOwners, true) == [e]
  {
    var rule := ByExpiry(now);
    assert Snapshot([d, e], AllOwners) == [d, e];
    assert !Affected(rule, d);
    assert DeleteOne([d, e], d, rule) == [d, e];
    assert IndexOfCodeAndOwner([d, e], e.shortCode, e.ownerUuid) == Some(0);
    assert DeleteOne([d, e], e, rule) == [e];
    assert [d, e][1..] == [e];
    assert [e][1..] == [];
    assert DeleteEach([e], [], rule) == [e];
    assert DeleteEach([d, e], [e], rule) == [e];
  }
}
