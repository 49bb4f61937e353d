/**
 * The listing query of the repository. It selects, for every row it keeps,
 * the row together with the window count `COUNT(*) OVER()` of all kept rows.
 * Its WHERE clause keeps a row when the title matches the full-text search
 * or the search string is empty (`$1 = ''`). It orders by the allow-listed
 * column and direction with `id ASC` as tiebreaker, then applies the limit
 * and the offset. The full-text match is an opaque predicate
 * `matches(title, query)`.
 */
module Listing {
  import opened Store
  import opened Ordering

  /** The WHERE clause: the text search, or any row when the query is empty. */
  predicate Where(title: string, query: string, matches: (string, string) -> bool) {
    matches(title, query) || query == ""
  }

  /** The ids of the rows the WHERE clause keeps. */
  ghost function MatchingIds(t: Table, query: string, matches: (string, string) -> bool): set<int> {
    set k | k in t && Where(t[k].title, query, matches)
  }

  /** The ids in [lo, hi) of the rows the WHERE clause keeps. */
  ghost function MatchingIdsIn(t: Table, lo: int, hi: int, query: string, matches: (string, string) -> bool): set<int> {
    set k | k in t && lo <= k < hi && Where(t[k].title, query, matches)
  }

  /** The rows with ids in [lo, hi) that the WHERE clause keeps, in increasing id order. */
  function Matching(t: Table, lo: int, hi: int, query: string, matches: (string, string) -> bool): (s: seq<Record>)
    requires Keyed(t)
    ensures forall i :: 0 <= i < |s| ==>
      s[i].id in t && t[s[i].id] == s[i] && lo <= s[i].id < hi && Where(s[i].title, query, matches)
    ensures forall i, j :: 0 <= i < j < |s| ==> s[i].id < s[j].id
    decreases hi - lo
  {
    if lo >= hi then []
    else if lo in t && Where(t[lo].title, query, matches) then [t[lo]] + Matching(t, lo + 1, hi, query, matches)
    else Matching(t, lo + 1, hi, query, matches)
  }

  /** Every row with an id in [lo, hi) that the WHERE clause keeps is among the matching rows. */
  lemma {:induction false} MatchingIsComplete(t: Table, lo: int, hi: int, query: string, matches: (string, string) -> bool)
    requires Keyed(t)
    ensures forall k :: lo <= k < hi && k in t && Where(t[k].title, query, matches) ==>
      t[k] in Matching(t, lo, hi, query, matches)
    decreases hi - lo
  {
    if lo < hi {
      MatchingIsComplete(t, lo + 1, hi, query, matches);
    }
  }

  /** The matching rows of the table, in the order the sort key describes. */
  function Ordered(t: Table, nextId: int, query: string, matches: (string, string) -> bool,
                   key: SortKey, less: (string, string) -> bool): seq<Record>
    requires WellFormed(t, nextId)
  {
    SortRecords(Matching(t, 1, nextId, query, matches), key, less)
  }

  /**
   * The listing holds the stored rows that the WHERE clause keeps, and no
   * other rows.
   */
  lemma OrderedHoldsMatchingRows(t: Table, nextId: int, query: string, matches: (string, string) -> bool,
                                 key: SortKey, less: (string, string) -> bool)
    requires WellFormed(t, nextId)
    ensures var s := Ordered(t, nextId, query, matches, key, less);
            && (forall r :: r in s ==> r.id in t && t[r.id] == r && Where(r.title, query, matches))
            && (forall k :: k in t && Where(t[k].title, query, matches) ==> t[k] in s)
  {
    var m := Matching(t, 1, nextId, query, matches);
    var s := SortRecords(m, key, less);
    MatchingIsComplete(t, 1, nextId, query, matches);
    forall r ensures r in s <==> r in m {
      assert r in s <==> r in multiset(s);
      assert r in m <==> r in multiset(m);
    }
  }

  function Min(a: int, b: int): int { if a <= b then a else b }

  /** LIMIT limit OFFSET offset over the ordered rows s. */
  function Window(s: seq<Record>, offset: nat, limit: nat): (w: seq<Record>)
    ensures |w| <= limit
    ensures |w| == if offset >= |s| then 0 else Min(limit, |s| - offset)
    ensures forall i :: 0 <= i < |w| ==> w[i] == s[offset + i]
  {
    if offset >= |s| then [] else s[offset..Min(offset + limit, |s|)]
  }

  /** One row of the listing's result set: COUNT(*) OVER() and the row itself. */
  datatype ResultRow = ResultRow(total: nat, record: Record)

  /**
   * The result set of the listing query. The window count is taken over
   * all matching rows, before LIMIT and OFFSET apply, so every returned row
   * carries the same total.
   */
  function SelectPage(t: Table, nextId: int, query: string, matches: (string, string) -> bool,
                      key: SortKey, less: (string, string) -> bool, limit: nat, offset: nat): (rs: seq<ResultRow>)
    requires WellFormed(t, nextId)
    ensures |rs| <= limit
    ensures forall i :: 0 <= i < |rs| ==> rs[i].total == |MatchingIds(t, query, matches)|
    ensures forall i :: 0 <= i < |rs| ==>
      var r := rs[i].record; r.id in t && t[r.id] == r && Where(r.title, query, matches)
    ensures var all := Ordered(t, nextId, query, matches, key, less);
            var page := Window(all, offset, limit);
            |rs| == |page| && forall i :: 0 <= i < |rs| ==> rs[i] == ResultRow(|all|, page[i])
  {
    OrderedCount(t, nextId, query, matches, key, less);
    OrderedHoldsMatchingRows(t, nextId, query, matches, key, less);
    var all := Ordered(t, nextId, query, matches, key, less);
    var page := Window(all, offset, limit);
    seq(|page|, i requires 0 <= i < |page| => ResultRow(|all|, page[i]))
  }

  /** The matching rows are listed in strictly increasing order under the sort key. */
  lemma OrderedIsSorted(t: Table, nextId: int, query: string, matches: (string, string) -> bool,
                        key: SortKey, less: (string, string) -> bool)
    requires WellFormed(t, nextId) && Collation(less)
    ensures Sorted(Ordered(t, nextId, query, matches, key, less), key, less)
  {
    SortRecordsIsSorted(Matching(t, 1, nextId, query, matches), key, less);
  }

  /**
   * The listing order is the only one: every sorted arrangement of the
   * matching rows is the one the query yields.
   */
  lemma OrderedIsUnique(t: Table, nextId: int, query: string, matches: (string, string) -> bool,
                        key: SortKey, less: (string, string) -> bool, s: seq<Record>)
    requires WellFormed(t, nextId) && Collation(less)
    requires Sorted(s, key, less)
    requires multiset(s) == multiset(Ordered(t, nextId, query, matches, key, less))
    ensures s == Ordered(t, nextId, query, matches, key, less)
  {
    OrderedIsSorted(t, nextId, query, matches, key, less);
    SortedIsUnique(s, Ordered(t, nextId, query, matches, key, less), key, less);
  }

  lemma {:induction false} MatchingCount(t: Table, lo: int, hi: int, query: string, matches: (string, string) -> bool)
    requires Keyed(t)
    ensures |Matching(t, lo, hi, query, matches)| == |MatchingIdsIn(t, lo, hi, query, matches)|
    decreases hi - lo
  {
    if lo >= hi {
      MatchingIdsStep(t, lo, hi, query, matches);
    } else {
      MatchingCount(t, lo + 1, hi, query, matches);
      MatchingIdsStep(t, lo, hi, query, matches);
    }
  }

  /** How the id set for [lo, hi) is made of lo and the id set for [lo + 1, hi). */
  lemma MatchingIdsStep(t: Table, lo: int, hi: int, query: string, matches: (string, string) -> bool)
    ensures lo >= hi ==> MatchingIdsIn(t, lo, hi, query, matches) == {}
    ensures lo < hi && lo in t && Where(t[lo].title, query, matches) ==>
      && MatchingIdsIn(t, lo, hi, query, matches) == {lo} + MatchingIdsIn(t, lo + 1, hi, query, matches)
      && lo !in MatchingIdsIn(t, lo + 1, hi, query, matches)
    ensures lo < hi && !(lo in t && Where(t[lo].title, query, matches)) ==>
      MatchingIdsIn(t, lo, hi, query, matches) == MatchingIdsIn(t, lo + 1, hi, query, matches)
  {
    var here := MatchingIdsIn(t, lo, hi, query, matches);
    var rest := MatchingIdsIn(t, lo + 1, hi, query, matches);
    if lo >= hi {
      forall k | k in here ensures false { }
    } else if lo in t && Where(t[lo].title, query, matches) {
      forall k ensures k in here <==> k in {lo} + rest { }
    } else {
      forall k ensures k in here <==> k in rest { }
    }
  }

  /** The count the query returns is the number of rows the WHERE clause keeps. */
  lemma OrderedCount(t: Table, nextId: int, query: string, matches: (string, string) -> bool,
                     key: SortKey, less: (string, string) -> bool)
    requires WellFormed(t, nextId)
    ensures |Ordered(t, nextId, query, matches, key, less)| == |MatchingIds(t, query, matches)|
  {
    var m := Matching(t, 1, nextId, query, matches);
    MatchingCount(t, 1, nextId, query, matches);
    assert MatchingIdsIn(t, 1, nextId, query, matches) == MatchingIds(t, query, matches);
    assert |SortRecords(m, key, less)| == |multiset(SortRecords(m, key, less))| == |multiset(m)| == |m|;
  }

  /** An empty search string keeps every row of the table. */
  lemma EmptyQueryMatchesAll(t: Table, nextId: int, matches: (string, string) -> bool,
                             key: SortKey, less: (string, string) -> bool)
    requires WellFormed(t, nextId)
    ensures MatchingIds(t, "", matches) == t.Keys
    ensures |Ordered(t, nextId, "", matches, key, less)| == |t|
  {
    forall k ensures k in MatchingIds(t, "", matches) <==> k in t.Keys {
      if k in t { assert Where(t[k].title, "", matches); }
    }
    OrderedCount(t, nextId, "", matches, key, less);
    assert |t.Keys| == |t|;
  }

  /**
   * Pagination neither skips nor repeats rows: the page at offset o followed
   * by the page right after it is the page of both sizes together.
   */
  lemma ConsecutivePages(s: seq<Record>, offset: nat, limit1: nat, limit2: nat)
    ensures Window(s, offset, limit1) + Window(s, offset + limit1, limit2) == Window(s, offset, limit1 + limit2)
  {
    var a, b, c := Window(s, offset, limit1), Window(s, offset + limit1, limit2), Window(s, offset, limit1 + limit2);
    assert |a + b| == |c|;
    forall i | 0 <= i < |c| ensures (a + b)[i] == c[i] {
      if i >= |a| {
        assert |a| == limit1;
      }
    }
  }

  /** A page of a sorted listing is itself sorted. */
  lemma WindowIsSorted(s: seq<Record>, offset: nat, limit: nat, key: SortKey, less: (string, string) -> bool)
    requires Sorted(s, key, less)
    ensures Sorted(Window(s, offset, limit), key, less)
  {
  }

  /**
   * What one page of a listing is: at most `limit` rows, each of them a
   * stored row the WHERE clause keeps, in the sort order; the count beside
   * it is the number of rows the WHERE clause keeps; and the page is empty
   * exactly when the offset is past the last of them (or the limit is 0).
   */
  lemma ListingPage(t: Table, nextId: int, query: string, matches: (string, string) -> bool,
                    key: SortKey, less: (string, string) -> bool, offset: nat, limit: nat)
    requires WellFormed(t, nextId) && Collation(less)
    ensures var all := Ordered(t, nextId, query, matches, key, less);
            var page := Window(all, offset, limit);
            && |page| <= limit
            && (forall r :: r in page ==> r.id in t && t[r.id] == r && Where(r.title, query, matches))
            && Sorted(page, key, less)
            && |all| == |MatchingIds(t, query, matches)|
            && (page == [] <==> offset >= |MatchingIds(t, query, matches)| || limit == 0)
  {
    var all := Ordered(t, nextId, query, matches, key, less);
    OrderedHoldsMatchingRows(t, nextId, query, matches, key, less);
    OrderedIsSorted(t, nextId, query, matches, key, less);
    OrderedCount(t, nextId, query, matches, key, less);
    WindowIsSorted(all, offset, limit, key, less);
    var page := Window(all, offset, limit);
    forall r | r in page ensures r in all {
      var i :| 0 <= i < |page| && page[i] == r;
      assert all[offset + i] == r;
    }
  }
}
