/**
 * The order in which a listing returns rows: ORDER BY <column> <direction>,
 * id ASC. The column and direction come from the allow-listed sort key, so
 * they are a closed enumeration here rather than text spliced into a query.
 */
module Ordering {
  import opened Store

  datatype Column = IdColumn | TitleColumn
  datatype Direction = Asc | Desc
  datatype SortKey = SortKey(column: Column, direction: Direction)

  /**
   * The database collation for titles, taken as an abstract strict total
   * order on strings: irreflexive, transitive and total on distinct strings.
   */
  ghost predicate Collation(less: (string, string) -> bool) {
    && (forall a :: !less(a, a))
    && (forall a, b, c :: less(a, b) && less(b, c) ==> less(a, c))
    && (forall a, b :: a != b ==> less(a, b) || less(b, a))
  }

  /** a's sort column is strictly smaller than b's, in ascending order. */
  predicate ColumnBefore(a: Record, b: Record, column: Column, less: (string, string) -> bool) {
    match column
    case IdColumn => a.id < b.id
    case TitleColumn => less(a.title, b.title)
  }

  /** a and b agree on the sort column. */
  predicate ColumnTie(a: Record, b: Record, column: Column) {
    match column
    case IdColumn => a.id == b.id
    case TitleColumn => a.title == b.title
  }

  /** a comes before b under ORDER BY <column> <direction>, id ASC. */
  predicate Before(a: Record, b: Record, key: SortKey, less: (string, string) -> bool) {
    || (if key.direction == Asc then ColumnBefore(a, b, key.column, less)
        else ColumnBefore(b, a, key.column, less))
    || (ColumnTie(a, b, key.column) && a.id < b.id)
  }

  /**
   * With the id tiebreaker the ordering is a strict total order on rows with
   * distinct ids, whatever the sort key: no two rows of a table are ever
   * left unordered, so page boundaries are the same on every request.
   */
  lemma BeforeIsStrictTotalOrder(a: Record, b: Record, c: Record, key: SortKey, less: (string, string) -> bool)
    requires Collation(less)
    ensures !Before(a, a, key, less)
    ensures Before(a, b, key, less) && Before(b, c, key, less) ==> Before(a, c, key, less)
    ensures a.id != b.id ==> Before(a, b, key, less) || Before(b, a, key, less)
  {
  }

  /**
   * Without the tiebreaker, two rows with the same title are not ordered at
   * all; with it, the row with the smaller id comes first in both directions.
   */
  lemma TitleAloneIsNotTotal(a: Record, b: Record, less: (string, string) -> bool)
    requires Collation(less)
    requires a.title == b.title && a.id < b.id
    ensures !ColumnBefore(a, b, TitleColumn, less) && !ColumnBefore(b, a, TitleColumn, less)
    ensures Before(a, b, SortKey(TitleColumn, Asc), less)
    ensures Before(a, b, SortKey(TitleColumn, Desc), less)
  {
  }

  /** The rows of s appear in strictly increasing order under the key. */
  ghost predicate Sorted(s: seq<Record>, key: SortKey, less: (string, string) -> bool) {
    forall i, j :: 0 <= i < j < |s| ==> Before(s[i], s[j], key, less)
  }

  /** No two rows of s share an id. */
  ghost predicate DistinctIds(s: seq<Record>) {
    forall i, j :: 0 <= i < j < |s| ==> s[i].id != s[j].id
  }

  /** Puts x in front of the first row of s that it comes before. */
  function InsertSorted(x: Record, s: seq<Record>, key: SortKey, less: (string, string) -> bool): (r: seq<Record>)
    ensures multiset(r) == multiset(s) + multiset{x}
  {
    if s == [] || !Before(s[0], x, key, less) then [x] + s
    else
      assert s == [s[0]] + s[1..];
      [s[0]] + InsertSorted(x, s[1..], key, less)
  }

  /** The rows of s rearranged into the order the key describes. */
  function SortRecords(s: seq<Record>, key: SortKey, less: (string, string) -> bool): (r: seq<Record>)
    ensures multiset(r) == multiset(s)
  {
    if s == [] then []
    else
      assert s == [s[0]] + s[1..];
      InsertSorted(s[0], SortRecords(s[1..], key, less), key, less)
  }

  lemma {:induction false} InsertSortedIsSorted(x: Record, s: seq<Record>, key: SortKey, less: (string, string) -> bool)
    requires Collation(less) && Sorted(s, key, less)
    requires forall y :: y in s ==> y.id != x.id
    ensures Sorted(InsertSorted(x, s, key, less), key, less)
  {
    var r := InsertSorted(x, s, key, less);
    if s == [] || !Before(s[0], x, key, less) {
      if s != [] {
        BeforeIsStrictTotalOrder(x, s[0], s[0], key, less);
        forall j | 0 <= j < |s| ensures Before(x, s[j], key, less) {
          if j > 0 { BeforeIsStrictTotalOrder(x, s[0], s[j], key, less); }
        }
      }
    } else {
      var tail := InsertSorted(x, s[1..], key, less);
      InsertSortedIsSorted(x, s[1..], key, less);
      forall j | 0 <= j < |tail| ensures Before(s[0], tail[j], key, less) {
        assert tail[j] in multiset(tail);
        if tail[j] != x {
          assert tail[j] in s[1..];
        }
      }
    }
  }

  lemma {:induction false} SortRecordsIsSorted(s: seq<Record>, key: SortKey, less: (string, string) -> bool)
    requires Collation(less) && DistinctIds(s)
    ensures Sorted(SortRecords(s, key, less), key, less)
  {
    if s != [] {
      var rest := SortRecords(s[1..], key, less);
      SortRecordsIsSorted(s[1..], key, less);
      forall y | y in rest ensures y.id != s[0].id {
        assert y in multiset(rest);
        assert y in s[1..];
      }
      InsertSortedIsSorted(s[0], rest, key, less);
    }
  }

  /**
   * A strictly sorted sequence is determined by its rows: any two sorted
   * permutations of the same rows are equal. So the order of a listing
   * does not depend on how the store arrives at it.
   */
  lemma {:induction false} SortedIsUnique(a: seq<Record>, b: seq<Record>, key: SortKey, less: (string, string) -> bool)
    requires Collation(less) && Sorted(a, key, less) && Sorted(b, key, less)
    requires multiset(a) == multiset(b)
    ensures a == b
  {
    assert |a| == |multiset(a)| == |multiset(b)| == |b|;
    if a != [] {
      assert a[0] in multiset(b) && b[0] in multiset(a);
      SortedHeadsAgree(a, b, key, less);
      var x := a[0];
      assert a == [x] + a[1..] && b == [x] + b[1..];
      assert multiset(a) == multiset{x} + multiset(a[1..]);
      assert multiset(b) == multiset{x} + multiset(b[1..]);
      assert multiset(a[1..]) == (multiset{x} + multiset(a[1..])) - multiset{x};
      assert multiset(b[1..]) == (multiset{x} + multiset(b[1..])) - multiset{x};
      SortedIsUnique(a[1..], b[1..], key, less);
    }
  }

  /** Two sorted sequences that contain each other's first row start with the same row. */
  lemma SortedHeadsAgree(a: seq<Record>, b: seq<Record>, key: SortKey, less: (string, string) -> bool)
    requires Collation(less) && Sorted(a, key, less) && Sorted(b, key, less)
    requires a != [] && b != [] && a[0] in b && b[0] in a
    ensures a[0] == b[0]
  {
    if a[0] != b[0] {
      var j :| 0 <= j < |b| && b[j] == a[0];
      var i :| 0 <= i < |a| && a[i] == b[0];
      assert Before(b[0], a[0], key, less);
      assert Before(a[0], b[0], key, less);
      BeforeIsStrictTotalOrder(a[0], b[0], a[0], key, less);
      assert false;
    }
  }
}
