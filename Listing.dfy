/**
 * The admin listing query shared by GET in api/admin/waitlist.js and by
 * api/admin/list.js: filter by status when one is given, sort by joinedAt
 * descending, skip (page - 1) * limit, take at most limit, and report the
 * total and ceil(total / limit) pages.
 */
module Listing {
  import opened Common
  import opened Records

  /** The status filter applies only when status is present and non-empty. */
  predicate Matches(e: Entry, status: Option<string>)
  {
    !Truthy(status) || StatusName(e.status) == status.value
  }

  /** find(query): the matching entries, in store order. */
  function Matching(s: seq<Entry>, status: Option<string>): (r: seq<Entry>)
    ensures forall e :: e in r <==> e in s && Matches(e, status)
    ensures multiset(r) <= multiset(s)
    ensures !Truthy(status) ==> r == s
    decreases |s|
  {
    if s == [] then []
    else
      assert s == [s[0]] + s[1..];
      if Matches(s[0], status) then [s[0]] + Matching(s[1..], status)
      else Matching(s[1..], status)
  }

  /** The filter keeps every copy of a matching entry and no copy of any other. */
  lemma {:induction false} MatchingKeepsEveryCopy(s: seq<Entry>, status: Option<string>)
    ensures forall e :: multiset(Matching(s, status))[e] == if Matches(e, status) then multiset(s)[e] else 0
    decreases |s|
  {
    if s != [] {
      MatchingKeepsEveryCopy(s[1..], status);
      assert s == [s[0]] + s[1..];
    }
  }

  ghost predicate SortedByJoinedDesc(s: seq<Entry>)
  {
    forall i, j :: 0 <= i < j < |s| ==> s[i].joinedAt >= s[j].joinedAt
  }

  /** Places e before the first entry that joined no later than it. */
  function InsertByJoinedDesc(e: Entry, s: seq<Entry>): (r: seq<Entry>)
    ensures |r| == |s| + 1
    decreases |s|
  {
    if s == [] || e.joinedAt >= s[0].joinedAt then [e] + s
    else [s[0]] + InsertByJoinedDesc(e, s[1..])
  }

  /** sort({ joinedAt: -1 }); entries that joined at the same instant keep store order. */
  function SortByJoinedDesc(s: seq<Entry>): (r: seq<Entry>)
    ensures |r| == |s|
    decreases |s|
  {
    if s == [] then [] else InsertByJoinedDesc(s[0], SortByJoinedDesc(s[1..]))
  }

  /** Every entry of s joined no later than bound. */
  ghost predicate JoinedNoLaterThan(s: seq<Entry>, bound: int)
  {
    forall i :: 0 <= i < |s| ==> s[i].joinedAt <= bound
  }

  lemma SortedCons(h: Entry, t: seq<Entry>)
    requires SortedByJoinedDesc(t) && JoinedNoLaterThan(t, h.joinedAt)
    ensures SortedByJoinedDesc([h] + t)
  {
    var r := [h] + t;
    forall i, j | 0 <= i < j < |r|
      ensures r[i].joinedAt >= r[j].joinedAt
    {
      assert r[j] == t[j - 1];
      if i > 0 {
        assert r[i] == t[i - 1];
      }
    }
  }

  lemma {:induction false} InsertByJoinedDescCorrect(e: Entry, s: seq<Entry>, bound: int)
    requires SortedByJoinedDesc(s)
    ensures SortedByJoinedDesc(InsertByJoinedDesc(e, s))
    ensures multiset(InsertByJoinedDesc(e, s)) == multiset(s) + multiset{e}
    ensures JoinedNoLaterThan(s, bound) && e.joinedAt <= bound ==>
              JoinedNoLaterThan(InsertByJoinedDesc(e, s), bound)
    decreases |s|
  {
    assert s != [] ==> s == [s[0]] + s[1..];
    if s == [] || e.joinedAt >= s[0].joinedAt {
      SortedCons(e, s);
    } else {
      var rest := s[1..];
      InsertByJoinedDescCorrect(e, rest, s[0].joinedAt);
      InsertByJoinedDescCorrect(e, rest, bound);
      SortedCons(s[0], InsertByJoinedDesc(e, rest));
    }
  }

  /** The sort yields a joinedAt-descending permutation of its input. */
  lemma {:induction false} SortByJoinedDescCorrect(s: seq<Entry>)
    ensures SortedByJoinedDesc(SortByJoinedDesc(s))
    ensures multiset(SortByJoinedDesc(s)) == multiset(s)
    ensures |SortByJoinedDesc(s)| == |s|
    decreases |s|
  {
    if s != [] {
      SortByJoinedDescCorrect(s[1..]);
      InsertByJoinedDescCorrect(s[0], SortByJoinedDesc(s[1..]), s[0].joinedAt);
      assert s == [s[0]] + s[1..];
    }
    assert |multiset(SortByJoinedDesc(s))| == |multiset(s)|;
  }

  /** The entries of s that joined at instant t, in the order s holds them. */
  function JoinedAt(s: seq<Entry>, t: int): seq<Entry>
    decreases |s|
  {
    if s == [] then []
    else if s[0].joinedAt == t then [s[0]] + JoinedAt(s[1..], t)
    else JoinedAt(s[1..], t)
  }

  /** Inserting e puts it ahead of every entry that joined at the same instant. */
  lemma {:induction false} InsertByJoinedDescStable(e: Entry, s: seq<Entry>, t: int)
    ensures JoinedAt(InsertByJoinedDesc(e, s), t)
              == if e.joinedAt == t then [e] + JoinedAt(s, t) else JoinedAt(s, t)
    decreases |s|
  {
    if s == [] || e.joinedAt >= s[0].joinedAt {
      assert ([e] + s)[1..] == s;
    } else {
      var r := InsertByJoinedDesc(e, s[1..]);
      assert ([s[0]] + r)[1..] == r;
      InsertByJoinedDescStable(e, s[1..], t);
    }
  }

  /** The sort is stable: entries that joined at the same instant keep their store order. */
  lemma {:induction false} SortByJoinedDescStable(s: seq<Entry>, t: int)
    ensures JoinedAt(SortByJoinedDesc(s), t) == JoinedAt(s, t)
    decreases |s|
  {
    if s != [] {
      SortByJoinedDescStable(s[1..], t);
      InsertByJoinedDescStable(s[0], SortByJoinedDesc(s[1..]), t);
    }
  }

  /** The sorted matches, the sequence every page is cut from. */
  function Ranked(s: seq<Entry>, status: Option<string>): seq<Entry>
  {
    SortByJoinedDesc(Matching(s, status))
  }

  function Skip(page: Positive, limit: Positive): nat
  {
    (page - 1) * limit
  }

  datatype Page = Page(entries: seq<Entry>, pagination: Pagination)

  /**
   * countDocuments(query) for the total, then find(query).sort(...).skip(...).limit(...)
   * for the entries.
   */
  function Query(s: seq<Entry>, page: Positive, limit: Positive, status: Option<string>): (r: Page)
    ensures |r.entries| <= limit
    ensures r.pagination.total == |Matching(s, status)|
    ensures r.pagination.page == page && r.pagination.limit == limit
  {
    var ranked := Ranked(s, status);
    var total := |Matching(s, status)|;
    var from := Min(Skip(page, limit), |ranked|);
    var to := Min(from + limit, |ranked|);
    Page(ranked[from..to], Pagination(total, page, limit, CeilDiv(total, limit)))
  }

  lemma RankedLength(s: seq<Entry>, status: Option<string>)
    ensures |Ranked(s, status)| == |Matching(s, status)|
  {
    SortByJoinedDescCorrect(Matching(s, status));
  }

  /** The query defaults: page = 1, limit = 50. */
  function PageOrDefault(page: Option<Positive>): Positive
  {
    if page.Some? then page.value else 1
  }

  function LimitOrDefault(limit: Option<Positive>): Positive
  {
    if limit.Some? then limit.value else 50
  }

  /** The 200 answer of a listing: { entries, pagination: { total, page, limit, pages } }. */
  function ListResponse(s: seq<Entry>, page: Option<Positive>, limit: Option<Positive>, status: Option<string>): Response
  {
    var p := Query(s, PageOrDefault(page), LimitOrDefault(limit), status);
    Response(200, ListingBody(p.entries, p.pagination))
  }

  /** A slice of a sorted sequence is sorted. */
  lemma SliceOfSorted(s: seq<Entry>, from: nat, to: nat)
    requires from <= to <= |s| && SortedByJoinedDesc(s)
    ensures SortedByJoinedDesc(s[from..to])
  {
    var t := s[from..to];
    forall i, j | 0 <= i < j < |t|
      ensures t[i].joinedAt >= t[j].joinedAt
    {
      assert t[i] == s[from + i] && t[j] == s[from + j];
    }
  }

  /**
   * A page holds at most limit entries, never more than the total, every one
   * of them a matching entry of the store, in joinedAt-descending order; the
   * pagination reports the request's page and limit and ceil(total / limit).
   */
  lemma QueryPageIsBoundedSortedAndFiltered(s: seq<Entry>, page: Positive, limit: Positive, status: Option<string>)
    ensures var p := Query(s, page, limit, status);
      && |p.entries| <= limit
      && |p.entries| <= p.pagination.total
      && (forall e :: e in p.entries ==> e in s && Matches(e, status))
      && SortedByJoinedDesc(p.entries)
      && p.pagination.page == page && p.pagination.limit == limit
      && p.pagination.pages * limit >= p.pagination.total
      && (p.pagination.pages == 0 || (p.pagination.pages - 1) * limit < p.pagination.total)
  {
    var m := Matching(s, status);
    SortByJoinedDescCorrect(m);
    var ranked := Ranked(s, status);
    var from := Min(Skip(page, limit), |ranked|);
    var to := Min(from + limit, |ranked|);
    var entries := ranked[from..to];
    assert Query(s, page, limit, status).entries == entries;
    SliceOfSorted(ranked, from, to);
    forall e | e in entries
      ensures e in s && Matches(e, status)
    {
      assert e in multiset(ranked);
      assert e in m;
    }
  }

  /** Page p is the slice [(p - 1) * limit, p * limit) of the ranked matches; past the end it is empty. */
  lemma QueryIsSliceOfRanked(s: seq<Entry>, page: Positive, limit: Positive, status: Option<string>)
    ensures var p := Query(s, page, limit, status);
      var ranked := Ranked(s, status);
      && |ranked| == p.pagination.total
      && (Skip(page, limit) >= |ranked| ==> p.entries == [])
      && (Skip(page, limit) < |ranked| ==>
            p.entries == ranked[Skip(page, limit)..Min(page * limit, |ranked|)])
  {
    SortByJoinedDescCorrect(Matching(s, status));
    assert Skip(page, limit) + limit == page * limit;
  }

  /** The total does not depend on the page asked for. */
  lemma QueryTotalIndependentOfPage(s: seq<Entry>, p1: Positive, p2: Positive, limit: Positive, status: Option<string>)
    ensures Query(s, p1, limit, status).pagination.total == Query(s, p2, limit, status).pagination.total
    ensures Query(s, p1, limit, status).pagination.pages == Query(s, p2, limit, status).pagination.pages
  {
  }

  /** The window [from, from + limit) of a sequence, clipped to its length, holds rank k at offset k - from. */
  lemma WindowHoldsRank(ranked: seq<Entry>, from: nat, limit: nat, k: nat)
    requires from <= k < from + limit && k < |ranked|
    ensures var w := ranked[Min(from, |ranked|)..Min(Min(from, |ranked|) + limit, |ranked|)];
      k - from < |w| && w[k - from] == ranked[k]
  {
  }

  /**
   * Every matching entry is listed on exactly one page: the page whose window
   * holds its rank, at offset rank - skip, and that page is within the
   * reported page count.
   */
  lemma EveryMatchIsOnItsPage(s: seq<Entry>, limit: Positive, status: Option<string>, k: nat, page: Positive)
    requires k < |Matching(s, status)|
    requires Skip(page, limit) <= k < Skip(page, limit) + limit
    ensures var p := Query(s, page, limit, status);
      && page <= p.pagination.pages
      && k - Skip(page, limit) < |p.entries|
      && p.entries[k - Skip(page, limit)] == Ranked(s, status)[k]
  {
    var total := |Matching(s, status)|;
    var ranked := Ranked(s, status);
    var from := Skip(page, limit);
    RankedLength(s, status);
    assert (page - 1) * limit < total;
    PageWithinCount(page, limit, total);
    WindowHoldsRank(ranked, from, limit, k);
  }
}
