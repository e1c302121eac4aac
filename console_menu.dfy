/** The text helpers of the console menu (cli/ConsoleMenu.java): column padding, truncation, and
    the filter and sort rules of the "my links" listing. Inputs read from the console are
    `Option<string>`, `None` standing for the `null` an exhausted input stream gives. */
module Menu {
  import opened Wrappers
  import opened Seqs
  import opened Text
  import opened Model

  /** `pad(s, width)`: `s` (null reads as empty) followed by spaces up to `width`; a string
      already that long is returned as it is. */
  method Pad(s: Option<string>, width: int) returns (r: string)
    ensures var t := if s.None? then "" else s.value;
      && (|t| >= width ==> r == t)
      && (|t| < width ==> (|r| == width && r[..|t|] == t
                           && forall k :: |t| <= k < width ==> r[k] == ' '))
  {
    var t := if s.None? then "" else s.value;
    if |t| >= width {
      return t;
    }
    r := t;
    while |r| < width
      invariant |t| <= |r| <= width
      invariant r[..|t|] == t
      invariant forall k :: |t| <= k < |r| ==> r[k] == ' '
      decreases width - |r|
    {
      r := r + [' '];
    }
  }

  /** `trunc(s, max)`: "-" for null; otherwise the trimmed text, cut to `max` characters when
      longer, the last three of them being "..." when `max` leaves room for more. */
  function Trunc(s: Option<string>, max: int): (r: string)
    ensures s.None? ==> r == "-"
    ensures s.Some? ==> var t := Trim(s.value);
      && |r| == (if |t| <= max then |t| else if max < 0 then 0 else max)
      && (|t| <= max ==> r == t)
      && (|t| > max && max <= 3 ==> StartsWith(t, r))
      && (|t| > max && max > 3 ==> StartsWith(t, r[..max - 3]) && r[max - 3..] == "...")
  {
    if s.None? then "-"
    else
      var t := Trim(s.value);
      if |t| <= max then t
      else if max <= 3 then t[..if max < 0 then 0 else max]
      else t[..max - 3] + "..."
  }

  // ---------- filters ----------

  /** The status filter: missing, blank or "ALL" (in any case) keeps everything; otherwise the
      status name must equal the upper-cased filter. */
  predicate StatusMatches(filter: Option<string>, l: Link) {
    || filter.None? || IsBlank(filter.value)
    || ToUpper(Trim(filter.value)) == "ALL"
    || StatusName(l.status) == ToUpper(Trim(filter.value))
  }

  /** The text filter: the lower-cased query is empty, or occurs in the lower-cased code or the
      lower-cased long URL. */
  predicate TextMatches(query: Option<string>, l: Link) {
    var q := if query.None? then "" else ToLower(Trim(query.value));
    q == [] || Contains(ToLower(l.shortCode), q) || Contains(ToLower(l.longUrl), q)
  }

  function Shown(filter: Option<string>, query: Option<string>): Link -> bool {
    (l: Link) => StatusMatches(filter, l) && TextMatches(query, l)
  }

  /** Different statuses have different names. */
  lemma StatusNameInjective(a: Status, b: Status)
    ensures StatusName(a) == StatusName(b) <==> a == b
  {
  }

  /** A filter naming a status keeps exactly the links in that status, in whatever case it is
      typed. */
  lemma StatusFilterSelectsStatus(filter: string, s: Status, l: Link)
    requires ToUpper(Trim(filter)) == StatusName(s)
    ensures StatusMatches(Some(filter), l) <==> l.status == s
  {
    assert StatusName(s)[0] != ' ';
    assert !IsBlank(filter) by {
      var t := Trim(filter);
      var i :| OccursAt(filter, t, i);
      assert filter[i] == t[0];
      assert ToUpper(t)[0] == UpperChar(t[0]);
      assert UpperChar(filter[i]) != ' ';
    }
    assert ToUpper(Trim(filter)) != "ALL";
    StatusNameInjective(l.status, s);
  }

  /** The word ALL switches the status filter off whatever its letter case and surrounding
      blanks: every link passes. */
  lemma StatusFilterAll(filter: string, l: Link)
    requires ToUpper(Trim(filter)) == "ALL"
    ensures StatusMatches(Some(filter), l)
  {
  }

  /** "all" and "All" are two such spellings. */
  lemma StatusFilterAllSpellings(l: Link)
    ensures StatusMatches(Some("all"), l) && StatusMatches(Some("All"), l)
  {
    assert Trim("all") == "all" by { TrimOfPlain("all"); }
    assert Trim("All") == "All" by { TrimOfPlain("All"); }
    assert ToUpper("all") == "ALL";
    assert ToUpper("All") == "ALL";
    StatusFilterAll("all", l);
    StatusFilterAll("All", l);
  }

  /** A string that neither starts nor ends with a trimmed character is its own trim. */
  lemma TrimOfPlain(s: string)
    requires |s| > 0 && !TrimmedAway(s[0]) && !TrimmedAway(s[|s| - 1])
    ensures Trim(s) == s
  {
    assert TrimStart(s) == s;
    assert TrimEnd(s) == s;
  }

  /** A link is found by typing its own code, in any letter case. */
  lemma TextFilterFindsOwnCode(l: Link, typed: string)
    requires Trim(typed) == typed && ToLower(typed) == ToLower(l.shortCode)
    ensures TextMatches(Some(typed), l)
  {
    var q := ToLower(typed);
    assert ToLower(l.shortCode)[0..|q|] == q;
    assert OccursAt(ToLower(l.shortCode), q, 0);
  }

  /** The loop that copies the links passing both filters into the list to show. */
  method FilterLinks(all: seq<Link>, filter: Option<string>, query: Option<string>) returns (list: seq<Link>)
    ensures list == Filter(all, Shown(filter, query))
    ensures forall l :: l in list <==> l in all && StatusMatches(filter, l) && TextMatches(query, l)
  {
    var p := Shown(filter, query);
    list := [];
    var i := 0;
    while i < |all|
      invariant 0 <= i <= |all|
      invariant list == Filter(all[..i], p)
    {
      FilterPrefixStep(all, i, p);
      // p is the conjunction of the status and the text filter
      if p(all[i]) {
        list := list + [all[i]];
      }
      i := i + 1;
    }
    assert all[..i] == all;
    FilterMembers(all, p);
  }

  // ---------- sorting ----------

  /** The sort key typed by the user: 1 when missing, blank or not an `int`, else its value. */
  function SortIndex(sort: Option<string>): (r: int)
    ensures sort.None? || IsBlank(sort.value) ==> r == 1
    ensures sort.Some? && !IsBlank(sort.value) && ParseInteger(Trim(sort.value), MinInt, MaxInt).Some?
            ==> r == ParseInteger(Trim(sort.value), MinInt, MaxInt).value
    ensures sort.Some? && ParseInteger(Trim(sort.value), MinInt, MaxInt).None? ==> r == 1
  {
    if sort.None? || IsBlank(sort.value) then 1
    else match ParseInteger(Trim(sort.value), MinInt, MaxInt)
      case Some(n) => n
      case None => 1
  }

  /** The keys the prompt offers, typed as a single digit, are taken as they are. */
  lemma SortIndexOfDigit(c: char)
    requires '1' <= c <= '3'
    ensures SortIndex(Some([c])) == c as int - '0' as int
  {
    TrimOfPlain([c]);
    assert AllDigits([c]);
    assert [c][..0] == [];
    assert DigitsValue([c]) == c as int - '0' as int;
  }

  /** `Comparator.nullsLast(naturalOrder())` as "may come first": an absent value sorts after
      every present one. */
  predicate NullsLastLe(x: Option<int>, y: Option<int>) {
    y.None? || (x.Some? && x.value <= y.value)
  }

  /** The order of sort key `key`: 2 is clicks descending, 3 is expiry ascending with missing
      expiries last, anything else is creation descending, the reversed null-last order putting
      missing creation times first. */
  function Order(key: int): (Link, Link) -> bool {
    if key == 2 then (a: Link, b: Link) => a.clickCount >= b.clickCount
    else if key == 3 then (a: Link, b: Link) => NullsLastLe(a.expiresAt, b.expiresAt)
    else (a: Link, b: Link) => NullsLastLe(b.createdAt, a.createdAt)
  }

  lemma OrderIsTotalPreorder(key: int)
    ensures TotalPreorder(Order(key))
  {
  }

  /** `list.sort(cmp)` with the comparator of `key`: a permutation of the list in that order. */
  function SortLinks(list: seq<Link>, key: int): (r: seq<Link>)
    ensures multiset(r) == multiset(list) && |r| == |list|
    ensures SortedBy(r, Order(key))
    ensures key == 2 ==> forall i, j :: 0 <= i < j < |r| ==> r[i].clickCount >= r[j].clickCount
    ensures key == 3 ==> forall i, j :: 0 <= i < j < |r| && r[j].expiresAt.Some? ==>
      r[i].expiresAt.Some? && r[i].expiresAt.value <= r[j].expiresAt.value
    ensures key != 2 && key != 3 ==> forall i, j :: 0 <= i < j < |r| && r[i].createdAt.Some? ==>
      r[j].createdAt.Some? && r[i].createdAt.value >= r[j].createdAt.value
  {
    OrderIsTotalPreorder(key);
    SortBy(list, Order(key))
  }

  /** The list `actionListMyLinks` shows for the owner's links `mine`: the links passing both
      filters, sorted by the key typed. */
  method ListedLinks(mine: seq<Link>, filter: Option<string>, query: Option<string>, sort: Option<string>)
    returns (shown: seq<Link>)
    ensures multiset(shown) == multiset(Filter(mine, Shown(filter, query)))
    ensures forall l :: l in shown <==> l in mine && StatusMatches(filter, l) && TextMatches(query, l)
    ensures SortedBy(shown, Order(SortIndex(sort)))
    ensures shown == SortLinks(Filter(mine, Shown(filter, query)), SortIndex(sort))
  {
    var list := FilterLinks(mine, filter, query);
    var key := SortIndex(sort);
    shown := SortLinks(list, key);
    forall l ensures l in shown <==> l in list {
      assert l in shown <==> l in multiset(shown);
      assert l in list <==> l in multiset(list);
    }
  }
}
