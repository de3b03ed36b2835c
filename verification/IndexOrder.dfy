/** The rows of a table, the order an index gives them, and the SELECT statements that SQLEX
    prepares to read them.

    A key is the tuple of a row's index columns, each column abstracted to its rank (an int).
    A statement is modelled by what it means: filter the stored rows, sort, keep the first rows.
 */
module IndexOrder {

  type Key = seq<int>

  datatype Row = Row(recno: nat, key: Key)

  /** The WHERE clause of a statement: none, or the one for an index level,
      c1 = k1 AND ... AND c(level) >= k(level)   (<= when `up` is false). */
  datatype Where = Everything | AtLevel(level: nat, up: bool, key: Key)

  datatype Limit = Unlimited | AtMost(rows: nat)

  // ---------------------------------------------------------------- lexicographic order

  /** `a` and `b` have the same first `n` columns. */
  predicate Agree(a: Key, b: Key, n: nat)
    requires n <= |a| == |b|
  {
    forall m :: 0 <= m < n ==> a[m] == b[m]
  }

  predicate LessAt(a: Key, b: Key, j: nat)
    requires j < |a| == |b|
  {
    Agree(a, b, j) && a[j] < b[j]
  }

  predicate Less(a: Key, b: Key)
    requires |a| == |b|
  {
    exists j :: 0 <= j < |a| && LessAt(a, b, j)
  }

  lemma LessIsTotal(a: Key, b: Key)
    requires |a| == |b|
    ensures a == b || Less(a, b) || Less(b, a)
  {
    if a != b {
      var j := FirstDifference(a, b);
      assert LessAt(a, b, j) || LessAt(b, a, j);
    }
  }

  lemma FirstDifference(a: Key, b: Key) returns (j: nat)
    requires |a| == |b| && a != b
    ensures j < |a| && Agree(a, b, j) && a[j] != b[j]
  {
    j := 0;
    while j < |a| && a[j] == b[j]
      invariant j <= |a| && Agree(a, b, j)
    {
      j := j + 1;
    }
  }

  lemma LessIsTransitive(a: Key, b: Key, c: Key)
    requires |a| == |b| == |c|
    requires Less(a, b) && Less(b, c)
    ensures Less(a, c)
  {
    var i :| 0 <= i < |a| && LessAt(a, b, i);
    var j :| 0 <= j < |a| && LessAt(b, c, j);
    assert LessAt(a, c, if i < j then i else j);
  }

  lemma LessIsAsymmetric(a: Key, b: Key)
    requires |a| == |b| && Less(a, b)
    ensures a != b && !Less(b, a)
  {
    var i :| 0 <= i < |a| && LessAt(a, b, i);
    forall j | 0 <= j < |a| ensures !LessAt(b, a, j) {
      assert j == i || j < i || i < j;
    }
  }

  /** `a` comes before `b` in the direction of the ORDER BY clause. */
  predicate Before(asc: bool, a: Key, b: Key)
    requires |a| == |b|
  {
    if asc then Less(a, b) else Less(b, a)
  }

  ghost predicate Uniform(rows: seq<Row>, columns: nat)
  {
    forall i :: 0 <= i < |rows| ==> |rows[i].key| == columns
  }

  ghost predicate Ordered(rows: seq<Row>, columns: nat, asc: bool)
  {
    && Uniform(rows, columns)
    && forall i, j :: 0 <= i < j < |rows| ==> Before(asc, rows[i].key, rows[j].key)
  }

  ghost predicate KeysDiffer(rows: seq<Row>)
  {
    forall i, j :: 0 <= i < j < |rows| ==> rows[i].key != rows[j].key
  }

  ghost predicate RecnosDiffer(rows: seq<Row>)
  {
    forall i, j :: 0 <= i < j < |rows| ==> rows[i].recno != rows[j].recno
  }

  // ---------------------------------------------------------------- SELECT

  predicate Matches(w: Where, r: Row)
  {
    match w
    case Everything => true
    case AtLevel(level, up, key) =>
      && 1 <= level <= |key| == |r.key|
      && Agree(r.key, key, level - 1)
      && if up then r.key[level - 1] >= key[level - 1] else r.key[level - 1] <= key[level - 1]
  }

  function Filter(rows: seq<Row>, w: Where): (kept: seq<Row>)
  {
    if rows == [] then []
    else (if Matches(w, rows[0]) then [rows[0]] else []) + Filter(rows[1..], w)
  }

  function Insert(r: Row, rows: seq<Row>): (s: seq<Row>)
    ensures |s| == |rows| + 1
  {
    if rows == [] then [r]
    else if |r.key| == |rows[0].key| && Less(r.key, rows[0].key) then [r] + rows
    else [rows[0]] + Insert(r, rows[1..])
  }

  function SortAscending(rows: seq<Row>): (s: seq<Row>)
    ensures |s| == |rows|
  {
    if rows == [] then [] else Insert(rows[0], SortAscending(rows[1..]))
  }

  function Reverse(rows: seq<Row>): (s: seq<Row>)
    ensures |s| == |rows|
    ensures forall i :: 0 <= i < |s| ==> s[i] == rows[|rows| - 1 - i]
  {
    seq(|rows|, i requires 0 <= i < |rows| => rows[|rows| - 1 - i])
  }

  function OrderBy(rows: seq<Row>, asc: bool): (s: seq<Row>)
    ensures |s| == |rows|
  {
    if asc then SortAscending(rows) else Reverse(SortAscending(rows))
  }

  function Take(rows: seq<Row>, limit: Limit): seq<Row>
  {
    match limit
    case Unlimited => rows
    case AtMost(n) => if n < |rows| then rows[..n] else rows
  }

  /** What the database answers: SELECT ... WHERE w ORDER BY ... [LIMIT n]. */
  function Select(data: seq<Row>, w: Where, asc: bool, limit: Limit): seq<Row>
  {
    Take(OrderBy(Filter(data, w), asc), limit)
  }

  // ---------------------------------------------------------------- sorting is a sort, and commutes with filtering

  lemma {:induction false} InsertMembers(r: Row, rows: seq<Row>)
    ensures forall x :: x in Insert(r, rows) <==> x == r || x in rows
    decreases |rows|
  {
    if rows != [] {
      InsertMembers(r, rows[1..]);
      assert rows == [rows[0]] + rows[1..];
    }
  }

  lemma {:induction false} SortMembers(rows: seq<Row>)
    ensures forall x :: x in SortAscending(rows) <==> x in rows
    decreases |rows|
  {
    if rows != [] {
      SortMembers(rows[1..]);
      InsertMembers(rows[0], SortAscending(rows[1..]));
      assert rows == [rows[0]] + rows[1..];
    }
  }

  /** Every row of `rows` comes after `r`. */
  ghost predicate AllAfter(r: Row, rows: seq<Row>, columns: nat)
  {
    |r.key| == columns && forall x :: x in rows ==> |x.key| == columns && Less(r.key, x.key)
  }

  lemma OrderedCons(r: Row, rows: seq<Row>, columns: nat)
    requires AllAfter(r, rows, columns) && Ordered(rows, columns, true)
    ensures Ordered([r] + rows, columns, true)
  {
    var s := [r] + rows;
    forall i, j | 0 <= i < j < |s| ensures |s[i].key| == |s[j].key| == columns && Less(s[i].key, s[j].key) {
      assert s[j] in rows;
    }
  }

  lemma OrderedTail(rows: seq<Row>, columns: nat)
    requires Ordered(rows, columns, true) && rows != []
    ensures AllAfter(rows[0], rows[1..], columns) && Ordered(rows[1..], columns, true)
  {
    forall x | x in rows[1..] ensures |x.key| == columns && Less(rows[0].key, x.key) {
      var k :| 0 <= k < |rows[1..]| && rows[1..][k] == x;
      assert rows[k + 1] == x;
    }
  }

  lemma AllAfterTransitive(r: Row, rows: seq<Row>, columns: nat)
    requires rows != [] && AllAfter(rows[0], rows[1..], columns)
    requires |r.key| == columns && Less(r.key, rows[0].key)
    ensures AllAfter(r, rows, columns)
  {
    assert rows == [rows[0]] + rows[1..];
    forall x | x in rows ensures |x.key| == columns && Less(r.key, x.key) {
      if x != rows[0] { LessIsTransitive(r.key, rows[0].key, x.key); }
    }
  }

  lemma {:induction false} InsertKeepsOrder(r: Row, rows: seq<Row>, columns: nat)
    requires Ordered(rows, columns, true) && |r.key| == columns
    requires forall x :: x in rows ==> x.key != r.key
    ensures Ordered(Insert(r, rows), columns, true)
    decreases |rows|
  {
    if rows != [] {
      OrderedTail(rows, columns);
      if Less(r.key, rows[0].key) {
        AllAfterTransitive(r, rows, columns);
        OrderedCons(r, rows, columns);
      } else {
        InsertKeepsOrder(r, rows[1..], columns);
        assert rows[0] in rows;
        LessIsTotal(r.key, rows[0].key);
        InsertMembers(r, rows[1..]);
        OrderedCons(rows[0], Insert(r, rows[1..]), columns);
      }
    }
  }

  lemma {:induction false} SortIsOrdered(rows: seq<Row>, columns: nat)
    requires Uniform(rows, columns) && KeysDiffer(rows)
    ensures Ordered(SortAscending(rows), columns, true)
    decreases |rows|
  {
    if rows != [] {
      SortIsOrdered(rows[1..], columns);
      SortMembers(rows[1..]);
      var s := SortAscending(rows[1..]);
      forall x | x in s ensures x.key != rows[0].key {
        var k :| 0 <= k < |rows[1..]| && rows[1..][k] == x;
        assert rows[k + 1] == x;
      }
      InsertKeepsOrder(rows[0], s, columns);
    }
  }

  lemma FilterOfCons(r: Row, rows: seq<Row>, w: Where)
    ensures Filter([r] + rows, w) == if Matches(w, r) then [r] + Filter(rows, w) else Filter(rows, w)
  {
    assert ([r] + rows)[1..] == rows;
    assert [] + Filter(rows, w) == Filter(rows, w);
  }

  lemma InsertBeforeAll(r: Row, rows: seq<Row>, columns: nat)
    requires AllAfter(r, rows, columns)
    ensures Insert(r, rows) == [r] + rows
  {
    if rows != [] { assert rows[0] in rows; }
  }

  lemma InsertAfterFirst(r: Row, first: Row, rows: seq<Row>)
    requires |r.key| == |first.key| && !Less(r.key, first.key)
    ensures Insert(r, [first] + rows) == [first] + Insert(r, rows)
  {
    assert ([first] + rows)[1..] == rows;
  }

  lemma {:induction false} FilterOfInsert(r: Row, rows: seq<Row>, columns: nat, w: Where)
    requires Ordered(rows, columns, true) && |r.key| == columns
    ensures Filter(Insert(r, rows), w)
         == if Matches(w, r) then Insert(r, Filter(rows, w)) else Filter(rows, w)
    decreases |rows|
  {
    if rows == [] {
      FilterOfCons(r, [], w);
    } else {
      OrderedTail(rows, columns);
      var first, rest := rows[0], rows[1..];
      assert rows == [first] + rest;
      if Less(r.key, first.key) {
        AllAfterTransitive(r, rows, columns);
        FilterKeepsMembers(rows, w);
        FilterOfCons(r, rows, w);
        InsertBeforeAll(r, Filter(rows, w), columns);
      } else {
        FilterOfInsert(r, rest, columns, w);
        InsertAfterFirst(r, first, rest);
        InsertAfterFirst(r, first, Filter(rest, w));
        FilterOfCons(first, Insert(r, rest), w);
        FilterOfCons(first, rest, w);
      }
    }
  }

  lemma {:induction false} FilterKeepsMembers(rows: seq<Row>, w: Where)
    ensures forall x :: x in Filter(rows, w) <==> x in rows && Matches(w, x)
    decreases |rows|
  {
    if rows != [] {
      FilterKeepsMembers(rows[1..], w);
      assert rows == [rows[0]] + rows[1..];
    }
  }

  lemma SortOfCons(r: Row, rows: seq<Row>)
    ensures SortAscending([r] + rows) == Insert(r, SortAscending(rows))
  {
    assert ([r] + rows)[1..] == rows;
  }

  lemma {:induction false} FilterOfSort(rows: seq<Row>, columns: nat, w: Where)
    requires Uniform(rows, columns) && KeysDiffer(rows)
    ensures SortAscending(Filter(rows, w)) == Filter(SortAscending(rows), w)
    decreases |rows|
  {
    if rows != [] {
      var rest := rows[1..];
      assert rows == [rows[0]] + rest;
      FilterOfSort(rest, columns, w);
      SortIsOrdered(rest, columns);
      FilterOfInsert(rows[0], SortAscending(rest), columns, w);
      FilterOfCons(rows[0], rest, w);
      SortOfCons(rows[0], rest);
      SortOfCons(rows[0], Filter(rest, w));
    }
  }

  lemma ConcatIsAssociative(a: seq<Row>, b: seq<Row>, c: seq<Row>)
    ensures a + (b + c) == (a + b) + c
  {
  }

  lemma {:induction false} FilterOfSnoc(rows: seq<Row>, last: Row, w: Where)
    ensures Filter(rows + [last], w) == Filter(rows, w) + (if Matches(w, last) then [last] else [])
    decreases |rows|
  {
    if rows == [] {
      FilterOfCons(last, [], w);
    } else {
      var first, rest := rows[0], rows[1..];
      ConcatIsAssociative([first], rest, [last]);
      assert rows == [first] + rest;
      FilterOfSnoc(rest, last, w);
      FilterOfCons(first, rest + [last], w);
      FilterOfCons(first, rest, w);
      ConcatIsAssociative([first], Filter(rest, w), if Matches(w, last) then [last] else []);
    }
  }

  lemma ReverseOfCons(r: Row, rows: seq<Row>)
    ensures Reverse([r] + rows) == Reverse(rows) + [r]
  {
  }

  lemma {:induction false} FilterOfReverse(rows: seq<Row>, w: Where)
    ensures Filter(Reverse(rows), w) == Reverse(Filter(rows, w))
    decreases |rows|
  {
    if rows != [] {
      var rest := rows[1..];
      assert rows == [rows[0]] + rest;
      FilterOfReverse(rest, w);
      ReverseOfCons(rows[0], rest);
      FilterOfSnoc(Reverse(rest), rows[0], w);
      FilterOfCons(rows[0], rest, w);
      ReverseOfCons(rows[0], Filter(rest, w));
    }
  }

  lemma DescendingIsReversed(rows: seq<Row>, k: nat)
    requires k < |rows|
    ensures OrderBy(rows, false)[k] == OrderBy(rows, true)[|rows| - 1 - k]
  {
  }

  lemma OrderByAt(rows: seq<Row>, asc: bool, other: bool, k: nat)
    requires k < |rows|
    ensures OrderBy(rows, asc)[k] == OrderBy(rows, other)[if asc == other then k else |rows| - 1 - k]
  {
    if asc && !other {
      DescendingIsReversed(rows, |rows| - 1 - k);
    } else if !asc && other {
      DescendingIsReversed(rows, k);
    }
  }

  /** A statement reads a sub-sequence of the ordered table: sorting the filtered rows is filtering the sorted ones. */
  lemma FilterOfOrderBy(rows: seq<Row>, columns: nat, w: Where, asc: bool)
    requires Uniform(rows, columns) && KeysDiffer(rows)
    ensures OrderBy(Filter(rows, w), asc) == Filter(OrderBy(rows, asc), w)
  {
    FilterOfSort(rows, columns, w);
    FilterOfReverse(SortAscending(rows), w);
  }

  lemma OrderByIsOrdered(rows: seq<Row>, columns: nat, asc: bool)
    requires Uniform(rows, columns) && KeysDiffer(rows)
    ensures |OrderBy(rows, asc)| == |rows|
    ensures Ordered(OrderBy(rows, asc), columns, asc)
    ensures forall x :: x in OrderBy(rows, asc) <==> x in rows
  {
    SortIsOrdered(rows, columns);
    SortMembers(rows);
    var s := SortAscending(rows);
    if !asc {
      var o := Reverse(s);
      forall x | x in s ensures x in o {
        var k :| 0 <= k < |s| && s[k] == x;
        assert o[|s| - 1 - k] == x;
      }
    }
  }

  // ---------------------------------------------------------------- the index levels

  /** The WHERE clause prepared for `level` when the current row has key `key`; it compares in
      the direction of the ORDER BY clause. */
  function SkipWhere(level: nat, asc: bool, key: Key): Where
  {
    AtLevel(level, asc, key)
  }

  /** A level's rows have no gap: a row between two of them is one of them. */
  lemma LevelIsConvex(level: nat, asc: bool, key: Key, x: Row, y: Row, z: Row)
    requires |x.key| == |y.key| == |z.key| == |key| && 1 <= level <= |key|
    requires Before(asc, x.key, y.key) && Before(asc, y.key, z.key)
    requires Matches(SkipWhere(level, asc, key), x) && Matches(SkipWhere(level, asc, key), z)
    ensures Matches(SkipWhere(level, asc, key), y)
  {
    var lo, hi := if asc then x.key else z.key, if asc then z.key else x.key;
    var i :| 0 <= i < |key| && LessAt(lo, y.key, i);
    var j :| 0 <= j < |key| && LessAt(y.key, hi, j);
    assert Agree(lo, hi, level - 1);
    assert i >= level - 1 && j >= level - 1;
  }

  /** A deeper level reads no row that the level above it does not read. */
  lemma DeeperLevelReadsLess(level: nat, asc: bool, key: Key, r: Row)
    requires 2 <= level <= |key|
    requires Matches(SkipWhere(level, asc, key), r)
    ensures Matches(SkipWhere(level - 1, asc, key), r)
  {
  }

  /** Level 1 reads every row from the current one on, and of the earlier rows exactly those that
      share the first index column. */
  lemma LevelOneReads(asc: bool, key: Key, r: Row)
    requires |r.key| == |key| && |key| >= 1
    ensures r.key == key || Before(asc, key, r.key) ==> Matches(SkipWhere(1, asc, key), r)
    ensures Before(asc, r.key, key) ==> (Matches(SkipWhere(1, asc, key), r) <==> r.key[0] == key[0])
  {
    if Less(key, r.key) {
      LessIsAsymmetric(key, r.key);
      var j :| 0 <= j < |key| && LessAt(key, r.key, j);
    }
    if Less(r.key, key) {
      LessIsAsymmetric(r.key, key);
      var j :| 0 <= j < |key| && LessAt(r.key, key, j);
    }
  }

  lemma {:induction false} FilterOfInterval(rows: seq<Row>, w: Where, from: nat, to: nat)
    requires from <= to <= |rows|
    requires forall i :: 0 <= i < |rows| ==> (Matches(w, rows[i]) <==> from <= i < to)
    ensures Filter(rows, w) == rows[from..to]
    decreases |rows|
  {
    if rows != [] {
      var rest := rows[1..];
      var f := if from == 0 then 0 else from - 1;
      var t := if to == 0 then 0 else to - 1;
      forall i | 0 <= i < |rest| ensures Matches(w, rest[i]) <==> f <= i < t {
        assert rest[i] == rows[i + 1];
      }
      FilterOfInterval(rest, w, f, t);
      assert Matches(w, rows[0]) <==> from == 0 < to;
      if from == 0 < to {
        assert rows[from..to] == [rows[0]] + rest[f..t];
      } else {
        assert rows[from..to] == rest[f..t];
      }
    }
  }

  /** The position where the rows of a level begin (`from`), and the one after they end (`to`). */
  ghost function LevelStart(o: seq<Row>, level: nat, asc: bool, i: nat): (from: nat)
    requires i < |o|
    ensures from <= i
  {
    LevelStartFrom(o, SkipWhere(level, asc, o[i].key), i)
  }

  ghost function LevelStartFrom(o: seq<Row>, w: Where, i: nat): (from: nat)
    requires i < |o|
    ensures from <= i
    ensures forall k :: from <= k < i ==> Matches(w, o[k])
    ensures from > 0 ==> !Matches(w, o[from - 1])
  {
    if i > 0 && Matches(w, o[i - 1]) then LevelStartFrom(o, w, i - 1) else i
  }

  ghost function LevelEndFrom(o: seq<Row>, w: Where, i: nat): (to: nat)
    requires i <= |o|
    ensures i <= to <= |o|
    ensures forall k :: i <= k < to ==> Matches(w, o[k])
    ensures to < |o| ==> !Matches(w, o[to])
    decreases |o| - i
  {
    if i < |o| && Matches(w, o[i]) then LevelEndFrom(o, w, i + 1) else i
  }

  ghost function LevelEnd(o: seq<Row>, level: nat, asc: bool, i: nat): (to: nat)
    requires i < |o|
    ensures i < to <= |o|
  {
    LevelEndFrom(o, SkipWhere(level, asc, o[i].key), i + 1)
  }

  /** When rows `from` to `i` and `i` to `to` match and the rows next to them do not, no others do. */
  lemma OnlyThisBlock(o: seq<Row>, columns: nat, asc: bool, level: nat, i: nat, from: nat, to: nat, k: nat)
    requires Ordered(o, columns, asc) && 1 <= level <= columns && k < |o| && from <= i < to <= |o|
    requires from > 0 ==> !Matches(SkipWhere(level, asc, o[i].key), o[from - 1])
    requires to < |o| ==> !Matches(SkipWhere(level, asc, o[i].key), o[to])
    requires Matches(SkipWhere(level, asc, o[i].key), o[k])
    ensures from <= k < to
  {
    assert Matches(SkipWhere(level, asc, o[i].key), o[i]);
    if k + 1 < from {
      LevelIsConvex(level, asc, o[i].key, o[k], o[from - 1], o[i]);
    }
    if to < k {
      LevelIsConvex(level, asc, o[i].key, o[i], o[to], o[k]);
    }
  }

  /** A level reads one block of the ordered table, and the current row is in it. */
  lemma LevelIsBlock(o: seq<Row>, columns: nat, asc: bool, level: nat, i: nat)
    requires Ordered(o, columns, asc) && i < |o| && 1 <= level <= columns
    ensures Filter(o, SkipWhere(level, asc, o[i].key)) == o[LevelStart(o, level, asc, i)..LevelEnd(o, level, asc, i)]
  {
    var w := SkipWhere(level, asc, o[i].key);
    BlockFilter(o, columns, asc, level, i, LevelStartFrom(o, w, i), LevelEndFrom(o, w, i + 1));
  }

  lemma BlockFilter(o: seq<Row>, columns: nat, asc: bool, level: nat, i: nat, from: nat, to: nat)
    requires Ordered(o, columns, asc) && 1 <= level <= columns && from <= i < to <= |o|
    requires forall k :: from <= k < to && k != i ==> Matches(SkipWhere(level, asc, o[i].key), o[k])
    requires from > 0 ==> !Matches(SkipWhere(level, asc, o[i].key), o[from - 1])
    requires to < |o| ==> !Matches(SkipWhere(level, asc, o[i].key), o[to])
    ensures Filter(o, SkipWhere(level, asc, o[i].key)) == o[from..to]
  {
    var w := SkipWhere(level, asc, o[i].key);
    forall k | 0 <= k < |o| ensures Matches(w, o[k]) <==> from <= k < to {
      if Matches(w, o[k]) { OnlyThisBlock(o, columns, asc, level, i, from, to, k); }
      assert Matches(w, o[i]);
    }
    FilterOfInterval(o, w, from, to);
  }

  /** What is left of a result after everything up to and including the row `recno` is dropped. */
  function AfterRow(rows: seq<Row>, recno: nat): seq<Row>
  {
    if rows == [] then [] else if rows[0].recno == recno then rows[1..] else AfterRow(rows[1..], recno)
  }

  lemma {:induction false} AfterRowOfBlock(o: seq<Row>, from: nat, i: nat, to: nat)
    requires from <= i < to <= |o| && RecnosDiffer(o)
    ensures AfterRow(o[from..to], o[i].recno) == o[i + 1..to]
    decreases i - from
  {
    var b := o[from..to];
    if from < i {
      assert b[1..] == o[from + 1..to];
      AfterRowOfBlock(o, from + 1, i, to);
    } else {
      assert b[1..] == o[i + 1..to];
    }
  }

  /** What the statement of `level`, bound to row `i` of the order, reads after that row. */
  function ReadsAfter(data: seq<Row>, asc: bool, level: nat, current: Row): seq<Row>
  {
    AfterRow(Select(data, SkipWhere(level, asc, current.key), asc, Unlimited), current.recno)
  }

  /** `data` can be stored under an index of `columns` columns: keys and record numbers are unique. */
  ghost predicate Indexable(data: seq<Row>, columns: nat)
  {
    Uniform(data, columns) && KeysDiffer(data) && RecnosDiffer(data)
  }

  lemma OrderIsUnique(data: seq<Row>, columns: nat, asc: bool)
    requires Indexable(data, columns)
    ensures RecnosDiffer(OrderBy(data, asc))
  {
    OrderByIsOrdered(data, columns, asc);
    var o := OrderBy(data, asc);
    forall i, j | 0 <= i < j < |o| ensures o[i].recno != o[j].recno {
      assert o[i] in data && o[j] in data;
      OrderedDiffer(o, columns, asc, i, j);
      var k :| 0 <= k < |data| && data[k] == o[i];
      var l :| 0 <= l < |data| && data[l] == o[j];
      assert k < l || l < k;
    }
  }

  lemma OrderedDiffer(o: seq<Row>, columns: nat, asc: bool, i: nat, j: nat)
    requires Ordered(o, columns, asc) && i < j < |o|
    ensures o[i].key != o[j].key
  {
    if asc {
      LessIsAsymmetric(o[i].key, o[j].key);
    } else {
      LessIsAsymmetric(o[j].key, o[i].key);
    }
  }

  lemma LevelReads(data: seq<Row>, o: seq<Row>, columns: nat, asc: bool, level: nat, i: nat)
    requires Indexable(data, columns) && o == OrderBy(data, asc)
    requires 1 <= level <= columns && i < |o|
    ensures Ordered(o, columns, asc)
    ensures Select(data, SkipWhere(level, asc, o[i].key), asc, Unlimited)
         == o[LevelStart(o, level, asc, i)..LevelEnd(o, level, asc, i)]
    ensures ReadsAfter(data, asc, level, o[i]) == o[i + 1..LevelEnd(o, level, asc, i)]
  {
    OrderByIsOrdered(data, columns, asc);
    OrderIsUnique(data, columns, asc);
    FilterOfOrderBy(data, columns, SkipWhere(level, asc, o[i].key), asc);
    LevelIsBlock(o, columns, asc, level, i);
    AfterRowOfBlock(o, LevelStart(o, level, asc, i), i, LevelEnd(o, level, asc, i));
  }

  lemma LevelEnds(o: seq<Row>, columns: nat, asc: bool, level: nat, i: nat)
    requires Ordered(o, columns, asc) && i < |o| && 1 <= level <= columns
    ensures level == 1 ==> LevelEnd(o, 1, asc, i) == |o|
    ensures level > 1 ==> LevelEnd(o, level, asc, i) <= LevelEnd(o, level - 1, asc, i)
  {
    if level == 1 {
      var to := LevelEnd(o, 1, asc, i);
      if to < |o| { LevelOneReads(asc, o[i].key, o[to]); }
    } else {
      var to := LevelEnd(o, level - 1, asc, i);
      if to < LevelEnd(o, level, asc, i) { DeeperLevelReadsLess(level, asc, o[i].key, o[to]); }
    }
  }

  lemma LevelBeginsTheRest(data: seq<Row>, o: seq<Row>, columns: nat, asc: bool, level: nat, i: nat)
    requires Indexable(data, columns) && o == OrderBy(data, asc)
    requires 1 <= level <= columns && i < |o|
    ensures ReadsAfter(data, asc, level, o[i]) <= o[i + 1..]
    ensures level == 1 ==> ReadsAfter(data, asc, level, o[i]) == o[i + 1..]
  {
    LevelReads(data, o, columns, asc, level, i);
    LevelEnds(o, columns, asc, level, i);
    BlockPrefix(o, i + 1, LevelEnd(o, level, asc, i), |o|);
  }

  lemma LevelBeginsTheLevelAbove(data: seq<Row>, o: seq<Row>, columns: nat, asc: bool, level: nat, i: nat)
    requires Indexable(data, columns) && o == OrderBy(data, asc)
    requires 2 <= level <= columns && i < |o|
    ensures ReadsAfter(data, asc, level, o[i]) <= ReadsAfter(data, asc, level - 1, o[i])
  {
    LevelReads(data, o, columns, asc, level, i);
    LevelReads(data, o, columns, asc, level - 1, i);
    LevelEnds(o, columns, asc, level, i);
    BlockPrefix(o, i + 1, LevelEnd(o, level, asc, i), LevelEnd(o, level - 1, asc, i));
  }

  /** The level decomposition preserves the index order. For a table with unique keys over any number of
      NOT NULL columns, in both directions and for every level, the rows a level reads after the current one
      begin the rows that the level above reads after it, and begin the whole rest of the order; level 1
      reads the whole rest. */
  lemma LevelsPreserveOrder(data: seq<Row>, columns: nat, asc: bool, level: nat, i: nat)
    requires Indexable(data, columns)
    requires 1 <= level <= columns && i < |data|
    ensures |OrderBy(data, asc)| == |data|
    ensures var o := OrderBy(data, asc);
            && ReadsAfter(data, asc, level, o[i]) <= o[i + 1..]
            && (level == 1 ==> ReadsAfter(data, asc, level, o[i]) == o[i + 1..])
            && (level > 1 ==> ReadsAfter(data, asc, level, o[i]) <= ReadsAfter(data, asc, level - 1, o[i]))
  {
    OrderByIsOrdered(data, columns, asc);
    var o := OrderBy(data, asc);
    LevelBeginsTheRest(data, o, columns, asc, level, i);
    if level > 1 { LevelBeginsTheLevelAbove(data, o, columns, asc, level, i); }
  }

  lemma BlockPrefix(o: seq<Row>, from: nat, to: nat, further: nat)
    requires from <= to <= further <= |o|
    ensures o[from..to] <= o[from..further]
    ensures further == |o| ==> o[from..to] <= o[from..] && o[from..further] == o[from..]
  {
    assert o[from..to] == o[from..further][..to - from];
  }

  // ---------------------------------------------------------------- positions

  /** The position of the row `recno`; |rows| when there is none. */
  function RowIndex(rows: seq<Row>, recno: nat): (i: nat)
    ensures i <= |rows|
    ensures i < |rows| ==> rows[i].recno == recno
  {
    if rows == [] then 0 else if rows[0].recno == recno then 0 else 1 + RowIndex(rows[1..], recno)
  }

  lemma {:induction false} RowIndexMisses(rows: seq<Row>, recno: nat)
    ensures forall k :: 0 <= k < RowIndex(rows, recno) ==> rows[k].recno != recno
    decreases |rows|
  {
    if rows != [] && rows[0].recno != recno {
      RowIndexMisses(rows[1..], recno);
      forall k | 0 <= k < RowIndex(rows, recno) ensures rows[k].recno != recno {
        if k > 0 { assert rows[k] == rows[1..][k - 1]; }
      }
    }
  }

  lemma RowIndexAt(rows: seq<Row>, i: nat)
    requires RecnosDiffer(rows) && i < |rows|
    ensures RowIndex(rows, rows[i].recno) == i
  {
    RowIndexMisses(rows, rows[i].recno);
    var k := RowIndex(rows, rows[i].recno);
    assert k <= i;
  }

  /** The first row, in the direction of the ORDER BY clause, with the first index column of row `i`. */
  function FirstSharing(o: seq<Row>, i: nat): (first: nat)
    requires i < |o|
    ensures first <= i
  {
    if i > 0 && SameFirstColumn(o[i - 1].key, o[i].key) then FirstSharing(o, i - 1) else i
  }

  predicate SameFirstColumn(a: Key, b: Key)
  {
    a != [] && b != [] && a[0] == b[0]
  }

  /** The clause reads, of the rows before row `i`, those with this first column. */
  ghost predicate ReadsSharing(o: seq<Row>, w: Where, key: Key, i: nat)
    requires i <= |o|
  {
    forall j :: 0 <= j < i ==> (Matches(w, o[j]) <==> SameFirstColumn(o[j].key, key))
  }

  lemma {:induction false} FirstSharingIsLevelStart(o: seq<Row>, w: Where, key: Key, k: nat)
    requires k < |o| && SameFirstColumn(o[k].key, key) && ReadsSharing(o, w, key, k)
    ensures FirstSharing(o, k) == LevelStartFrom(o, w, k)
    decreases k
  {
    if k > 0 && SameFirstColumn(o[k - 1].key, o[k].key) {
      FirstSharingIsLevelStart(o, w, key, k - 1);
    }
  }

  lemma EarlierMatches(o: seq<Row>, columns: nat, asc: bool, j: nat, i: nat)
    requires Ordered(o, columns, asc) && columns >= 1 && j < i < |o|
    ensures Matches(SkipWhere(1, asc, o[i].key), o[j]) <==> SameFirstColumn(o[j].key, o[i].key)
  {
    LevelOneReads(asc, o[i].key, o[j]);
  }

  lemma SingleColumnSharesNothing(o: seq<Row>, asc: bool, i: nat)
    requires Ordered(o, 1, asc) && i < |o|
    ensures FirstSharing(o, i) == i
  {
    if i > 0 { OrderedDiffer(o, 1, asc, i - 1, i); }
  }

  lemma LevelOneStart(o: seq<Row>, columns: nat, asc: bool, i: nat)
    requires Ordered(o, columns, asc) && columns >= 1 && i < |o|
    ensures LevelStart(o, 1, asc, i) == FirstSharing(o, i)
  {
    forall j | 0 <= j < i ensures Matches(SkipWhere(1, asc, o[i].key), o[j]) <==> SameFirstColumn(o[j].key, o[i].key) {
      EarlierMatches(o, columns, asc, j, i);
    }
    FirstSharingIsLevelStart(o, SkipWhere(1, asc, o[i].key), o[i].key, i);
  }

  /** So the rows from there to row `i` are those before it with its first index column. */
  lemma SharingIs(o: seq<Row>, columns: nat, asc: bool, j: nat, i: nat)
    requires Ordered(o, columns, asc) && columns >= 1 && j < i < |o|
    ensures FirstSharing(o, i) <= j <==> SameFirstColumn(o[j].key, o[i].key)
  {
    var w := SkipWhere(1, asc, o[i].key);
    LevelOneStart(o, columns, asc, i);
    EarlierMatches(o, columns, asc, j, i);
    if Matches(w, o[j]) {
      OnlyThisBlock(o, columns, asc, 1, i, LevelStartFrom(o, w, i), LevelEndFrom(o, w, i + 1), j);
    }
  }

  lemma {:induction false} SameSharing(o: seq<Row>, j: nat, i: nat)
    requires j <= i < |o| && FirstSharing(o, i) <= j
    ensures FirstSharing(o, j) == FirstSharing(o, i)
    decreases i
  {
    if j < i { SameSharing(o, j, i - 1); }
  }

  lemma LevelOneIsBlock(o: seq<Row>, columns: nat, asc: bool, i: nat)
    requires Ordered(o, columns, asc) && columns >= 1 && i < |o|
    ensures Filter(o, SkipWhere(1, asc, o[i].key)) == o[FirstSharing(o, i)..]
  {
    LevelIsBlock(o, columns, asc, 1, i);
    LevelEnds(o, columns, asc, 1, i);
    LevelOneStart(o, columns, asc, i);
    BlockPrefix(o, FirstSharing(o, i), |o|, |o|);
  }

  /** The page a skip reads: the level-1 statement answers with the rows that share the first column of row `i`
      and come before it, then row `i`, then the rest of the order, all cut at the limit. */
  lemma LevelOnePage(data: seq<Row>, o: seq<Row>, columns: nat, asc: bool, i: nat, limit: Limit)
    requires Uniform(data, columns) && KeysDiffer(data) && o == OrderBy(data, asc) && Ordered(o, columns, asc)
    requires columns >= 1 && i < |o|
    ensures Select(data, SkipWhere(1, asc, o[i].key), asc, limit) == Take(o[FirstSharing(o, i)..], limit)
  {
    FilterOfOrderBy(data, columns, SkipWhere(1, asc, o[i].key), asc);
    LevelOneIsBlock(o, columns, asc, i);
  }

  /** The page that GoTop and GoBottom read. */
  lemma WholePage(data: seq<Row>, asc: bool, limit: Limit)
    ensures Select(data, Everything, asc, limit) == Take(OrderBy(data, asc), limit)
  {
    FilterEverything(data);
  }

  lemma {:induction false} FilterEverything(rows: seq<Row>)
    ensures Filter(rows, Everything) == rows
    decreases |rows|
  {
    if rows != [] { FilterEverything(rows[1..]); }
  }

  /** A statement answers with stored rows. */
  lemma SelectsStored(data: seq<Row>, w: Where, asc: bool, limit: Limit, r: Row)
    requires r in Select(data, w, asc, limit)
    ensures r in data
  {
    FilterKeepsMembers(data, w);
    SortMembers(Filter(data, w));
    assert r in OrderBy(Filter(data, w), asc);
  }
}
