/** Seeking a string key in an index of character columns: the key is split over the columns, a statement asks for
    equality on the columns before the last one used and for >= on that one, its first row is taken, and the row's own
    key is compared with the key that was sought.
 */
module Seek {
  import opened IndexOrder

  /** Characters by their codes. */
  type Text = seq<int>

  const BLANK: int := 32

  // ---------------------------------------------------------------- splitting the key

  /** Where column `i` begins in the key. */
  function Offset(widths: seq<nat>, i: nat): nat
    requires i <= |widths|
  {
    if i == 0 then 0 else Offset(widths, i - 1) + widths[i - 1]
  }

  lemma {:induction false} OffsetGrows(widths: seq<nat>, i: nat, j: nat)
    requires i <= j <= |widths|
    ensures Offset(widths, i) <= Offset(widths, j)
    decreases j
  {
    if i < j { OffsetGrows(widths, i, j - 1); }
  }

  function Within(key: Text, at: nat): (r: nat)
    ensures r <= |key|
  {
    if at < |key| then at else |key|
  }

  /** The part of the key for column `i`. */
  function Slice(widths: seq<nat>, key: Text, i: nat): Text
    requires i < |widths|
  {
    key[Within(key, Offset(widths, i))..Within(key, Offset(widths, i + 1))]
  }

  /** `level` columns cover the key, or there are no more; one column fewer does not cover it. */
  predicate IsLevel(widths: seq<nat>, key: Text, level: nat)
  {
    && 1 <= level <= |widths|
    && (level < |widths| ==> |key| <= Offset(widths, level))
    && (level > 1 ==> Offset(widths, level - 1) < |key|)
  }

  /** So it is the least number of columns, and at least one, that covers the key; all of them when none does. */
  lemma LevelIsLeast(widths: seq<nat>, key: Text, level: nat, k: nat)
    requires IsLevel(widths, key, level) && 1 <= k <= |widths|
    ensures k < level ==> Offset(widths, k) < |key|
    ensures |key| <= Offset(widths, k) ==> level <= k
  {
    if k < level { OffsetGrows(widths, k, level - 1); }
  }

  function Joined(columns: seq<Text>): Text
  {
    if columns == [] then [] else Joined(columns[..|columns| - 1]) + columns[|columns| - 1]
  }

  function Slices(widths: seq<nat>, key: Text, n: nat): (r: seq<Text>)
    requires n <= |widths|
    ensures |r| == n
  {
    seq(n, i requires 0 <= i < n => Slice(widths, key, i))
  }

  /** The slices are consecutive and disjoint, and joined they are the part of the key that the columns cover. */
  lemma {:induction false} SlicesPartition(widths: seq<nat>, key: Text, n: nat)
    requires n <= |widths|
    ensures Joined(Slices(widths, key, n)) == key[..Within(key, Offset(widths, n))]
    decreases n
  {
    if n > 0 {
      SlicesPartition(widths, key, n - 1);
      assert Slices(widths, key, n)[..n - 1] == Slices(widths, key, n - 1);
    }
  }

  function TrimmedLength(s: Text): (n: nat)
    ensures n <= |s|
  {
    if s == [] then 0 else if s[|s| - 1] != BLANK then |s| else TrimmedLength(s[..|s| - 1])
  }

  lemma {:induction false} TrimmedLengthIs(s: Text)
    ensures TrimmedLength(s) > 0 ==> s[TrimmedLength(s) - 1] != BLANK
    ensures forall k :: TrimmedLength(s) <= k < |s| ==> s[k] == BLANK
    decreases |s|
  {
    if s != [] && s[|s| - 1] == BLANK { TrimmedLengthIs(s[..|s| - 1]); }
  }

  /** What is bound for a slice: the slice without trailing blanks; for an empty one NULL, or a blank if the column
      cannot be NULL. */
  function BoundValue(slice: Text, isNullable: bool): Text
  {
    if TrimmedLength(slice) > 0 then slice[..TrimmedLength(slice)] else if isNullable then [] else [BLANK]
  }

  function BoundNull(slice: Text, isNullable: bool): bool
  {
    TrimmedLength(slice) == 0 && isNullable
  }

  predicate AllBlank(s: Text, from: nat)
    requires from <= |s|
  {
    forall k :: from <= k < |s| ==> s[k] == BLANK
  }

  /** What is bound, from the characters of the slice: nothing and NULL, or one blank, when they are all blanks; otherwise the
      slice up to its last character that is not. */
  predicate IsBoundTo(slice: Text, isNullable: bool, value: Text, isNull: bool)
  {
    if AllBlank(slice, 0) then isNull == isNullable && value == if isNullable then [] else [BLANK]
    else !isNull && value <= slice && value != [] && value[|value| - 1] != BLANK && AllBlank(slice, |value|)
  }

  lemma BoundIs(slice: Text, isNullable: bool)
    ensures IsBoundTo(slice, isNullable, BoundValue(slice, isNullable), BoundNull(slice, isNullable))
  {
    TrimmedLengthIs(slice);
  }

  /** The first `n` columns are bound to their slices of the key. */
  ghost predicate Fed(widths: seq<nat>, isNullable: seq<bool>, key: Text, values: seq<Text>, nulls: seq<bool>, n: nat)
    requires n <= |widths| == |isNullable| == |values| == |nulls|
  {
    n == 0 ||
    (&& Fed(widths, isNullable, key, values, nulls, n - 1)
     && values[n - 1] == BoundValue(Slice(widths, key, n - 1), isNullable[n - 1])
     && nulls[n - 1] == BoundNull(Slice(widths, key, n - 1), isNullable[n - 1]))
  }

  lemma {:induction false} FedAt(widths: seq<nat>, isNullable: seq<bool>, key: Text, values: seq<Text>, nulls: seq<bool>,
                                 n: nat, c: nat)
    requires c < n <= |widths| == |isNullable| == |values| == |nulls| && Fed(widths, isNullable, key, values, nulls, n)
    ensures values[c] == BoundValue(Slice(widths, key, c), isNullable[c])
    ensures nulls[c] == BoundNull(Slice(widths, key, c), isNullable[c])
    decreases n
  {
    if c < n - 1 { FedAt(widths, isNullable, key, values, nulls, n - 1, c); }
  }

  lemma AllBound(widths: seq<nat>, isNullable: seq<bool>, key: Text, values: seq<Text>, nulls: seq<bool>, n: nat)
    requires n <= |widths| == |isNullable| == |values| == |nulls| && Fed(widths, isNullable, key, values, nulls, n)
    ensures forall c :: 0 <= c < n ==> IsBoundTo(Slice(widths, key, c), isNullable[c], values[c], nulls[c])
  {
    forall c | 0 <= c < n ensures IsBoundTo(Slice(widths, key, c), isNullable[c], values[c], nulls[c]) {
      FedAt(widths, isNullable, key, values, nulls, n, c);
      BoundIs(Slice(widths, key, c), isNullable[c]);
    }
  }

  lemma {:induction false} FedKept(widths: seq<nat>, isNullable: seq<bool>, key: Text, values: seq<Text>, nulls: seq<bool>,
                                   n: nat, value: Text, isNull: bool, i: nat)
    requires n <= i < |widths| == |isNullable| == |values| == |nulls| && Fed(widths, isNullable, key, values, nulls, n)
    ensures Fed(widths, isNullable, key, values[i := value], nulls[i := isNull], n)
    decreases n
  {
    if n > 0 { FedKept(widths, isNullable, key, values, nulls, n - 1, value, isNull, i); }
  }

  ghost predicate SameFrom<T>(s: seq<T>, t: seq<T>, n: nat)
  {
    |s| == |t| && forall c :: n <= c < |s| ==> s[c] == t[c]
  }

  /** COLUMNBIND of the index columns, as far as a character seek writes them. */
  class SeekBind {
    const widths: seq<nat>
    const isNullable: seq<bool>
    const asChar: array<Text>
    const isArgumentNull: array<bool>
    var bRebuildSeekQuery: bool

    ghost predicate Valid()
      reads isArgumentNull
    {
      && |widths| == |isNullable| == asChar.Length == isArgumentNull.Length > 0
      && forall i :: 0 <= i < |widths| ==> widths[i] > 0 && (isArgumentNull[i] ==> isNullable[i])
    }

    constructor (columnSizes: seq<nat>, nullable: seq<bool>)
      requires |columnSizes| == |nullable| > 0 && forall i :: 0 <= i < |columnSizes| ==> columnSizes[i] > 0
      ensures Valid() && fresh(asChar) && fresh(isArgumentNull) && widths == columnSizes && isNullable == nullable
    {
      widths, isNullable := columnSizes, nullable;
      asChar := new Text[|columnSizes|](_ => []);
      isArgumentNull := new bool[|columnSizes|](_ => false);
      bRebuildSeekQuery := false;
    }

    /** The right trim: `size` characters of the key from `szKey` on. */
    method Trim(key: Text, szKey: nat, size: nat) returns (nTrim: nat)
      requires szKey + size <= |key|
      ensures nTrim == TrimmedLength(key[szKey..szKey + size])
    {
      nTrim := 0;
      ghost var slice := key[szKey..szKey + size];
      assert slice[..size] == slice;
      var index := size - 1;
      while index >= 0
        invariant -1 <= index < size
        invariant TrimmedLength(slice[..index + 1]) == TrimmedLength(slice)
      {
        if key[szKey + index] != BLANK {
          nTrim := index + 1;
          break;
        }
        assert slice[..index + 1][..index] == slice[..index];
        index := index - 1;
      }
    }

    method BindColumn(c: nat, key: Text, szKey: nat, size: nat)
      requires Valid() && c < |widths| && szKey + size <= |key|
      modifies `bRebuildSeekQuery, asChar, isArgumentNull
      ensures Valid()
      ensures asChar[..] == old(asChar[..])[c := BoundValue(key[szKey..szKey + size], isNullable[c])]
      ensures isArgumentNull[..] == old(isArgumentNull[..])[c := BoundNull(key[szKey..szKey + size], isNullable[c])]
      ensures bRebuildSeekQuery == (old(bRebuildSeekQuery) || isArgumentNull[c] != old(isArgumentNull[c]))
      ensures IsBoundTo(key[szKey..szKey + size], isNullable[c], asChar[c], isArgumentNull[c])
    {
      BoundIs(key[szKey..szKey + size], isNullable[c]);
      var nTrim := Trim(key, szKey, size);
      if nTrim == 0 {
        if !isNullable[c] {
          asChar[c] := [BLANK];
        } else {
          asChar[c] := [];
          if !isArgumentNull[c] {
            bRebuildSeekQuery := true;
          }
          isArgumentNull[c] := true;
        }
      } else {
        assert key[szKey..szKey + size][..nTrim] == key[szKey..szKey + nTrim];
        asChar[c] := key[szKey..szKey + nTrim];
        if isArgumentNull[c] {
          bRebuildSeekQuery := true;
          isArgumentNull[c] := false;
        }
      }
    }

    /** One turn of the loop: the next characters of the key go to column `i`. */
    method FeedColumn(i: nat, key: Text, szKey: nat, lenKey: nat) returns (size: nat)
      requires Valid() && i < |widths| && szKey == Offset(widths, i) && szKey + lenKey == |key|
      requires Fed(widths, isNullable, key, asChar[..], isArgumentNull[..], i)
      modifies `bRebuildSeekQuery, asChar, isArgumentNull
      ensures Valid() && size == (if lenKey > widths[i] then widths[i] else lenKey)
      ensures Fed(widths, isNullable, key, asChar[..], isArgumentNull[..], i + 1)
      ensures SameFrom(asChar[..], old(asChar[..]), i + 1) && SameFrom(isArgumentNull[..], old(isArgumentNull[..]), i + 1)
    {
      size := if lenKey > widths[i] then widths[i] else lenKey;
      assert key[szKey..szKey + size] == Slice(widths, key, i);
      BindColumn(i, key, szKey, size);
      FedKept(widths, isNullable, key, old(asChar[..]), old(isArgumentNull[..]), i, asChar[i], isArgumentNull[i], i);
    }

    /** Splits the key over the columns. sqlExSeek has the statement built again in any case, whether or not a NULL came
        or went here. */
    method FeedSeekKeyToBindings(key: Text) returns (queryLevel: nat)
      requires Valid()
      modifies `bRebuildSeekQuery, asChar, isArgumentNull
      ensures Valid() && IsLevel(widths, key, queryLevel)
      ensures Fed(widths, isNullable, key, asChar[..], isArgumentNull[..], queryLevel)
      ensures forall c :: 0 <= c < queryLevel ==> IsBoundTo(Slice(widths, key, c), isNullable[c], asChar[c], isArgumentNull[c])
      ensures SameFrom(asChar[..], old(asChar[..]), queryLevel)
      ensures SameFrom(isArgumentNull[..], old(isArgumentNull[..]), queryLevel)
    {
      hide IsBoundTo, Slice, BoundValue, BoundNull;
      var szKey, lenKey, i := 0, |key|, 0;
      while i < |widths|
        invariant 0 <= i <= |widths| && Valid()
        invariant szKey == Offset(widths, i) && szKey + lenKey == |key| && (i > 0 ==> lenKey > 0)
        invariant Fed(widths, isNullable, key, asChar[..], isArgumentNull[..], i)
        invariant SameFrom(asChar[..], old(asChar[..]), i) && SameFrom(isArgumentNull[..], old(isArgumentNull[..]), i)
      {
        var size := FeedColumn(i, key, szKey, lenKey);
        lenKey := lenKey - size;
        szKey := szKey + size;
        i := i + 1;
        if lenKey <= 0 {
          AllBound(widths, isNullable, key, asChar[..], isArgumentNull[..], i);
          return i;
        }
      }
      AllBound(widths, isNullable, key, asChar[..], isArgumentNull[..], i);
      return |widths|;
    }
  }

  // ---------------------------------------------------------------- the statement and its first row

  /** A row whose index columns are not NULL: fixed widths, no character below the blank. */
  ghost predicate Fits(widths: seq<nat>, columns: seq<Text>)
  {
    && |columns| == |widths|
    && forall i :: 0 <= i < |columns| ==> FitsColumn(columns[i], widths[i])
  }

  ghost predicate FitsColumn(column: Text, width: nat)
  {
    |column| == width && forall k :: 0 <= k < |column| ==> column[k] >= BLANK
  }

  /** A bound value as the database compares it with a column of width `w`: padded with blanks. */
  function PadTo(v: Text, w: nat): (r: Text)
    ensures |v| <= w ==> |r| == w
  {
    if |v| >= w then v else v + seq(w - |v|, _ => BLANK)
  }

  predicate EqualsBound(column: Text, value: Text)
  {
    column == PadTo(value, |column|)
  }

  ghost predicate NotBelowBound(column: Text, value: Text)
  {
    |value| <= |column| && !Less(column, PadTo(value, |column|))
  }

  ghost predicate FrontEquals(values: seq<Text>, n: nat, columns: seq<Text>)
    requires n <= |values| == |columns|
  {
    forall i :: 0 <= i < n ==> EqualsBound(columns[i], values[i])
  }

  /** c1 = ? AND ... AND c(level) >= ? */
  ghost predicate SeekWhere(values: seq<Text>, level: nat, columns: seq<Text>)
    requires 1 <= level <= |values| == |columns|
  {
    && FrontEquals(values, level - 1, columns)
    && NotBelowBound(columns[level - 1], values[level - 1])
  }

  ghost predicate ColumnsLessAt(a: seq<Text>, b: seq<Text>, i: nat)
    requires i < |a| == |b|
  {
    a[..i] == b[..i] && |a[i]| == |b[i]| && Less(a[i], b[i])
  }

  /** ORDER BY c1, ..., cn. */
  ghost predicate ColumnsLess(a: seq<Text>, b: seq<Text>)
    requires |a| == |b|
  {
    exists i :: 0 <= i < |a| && ColumnsLessAt(a, b, i)
  }

  /** `first` is a row that the statement may answer with: it matches, and no row that matches comes before it. */
  ghost predicate IsFirst(rows: seq<seq<Text>>, values: seq<Text>, level: nat, first: seq<Text>)
    requires 1 <= level <= |values|
    requires forall r :: r in rows ==> |r| == |values|
  {
    && first in rows && SeekWhere(values, level, first)
    && forall r :: r in rows && SeekWhere(values, level, r) ==> !ColumnsLess(r, first)
  }

  // ---------------------------------------------------------------- what matches

  ghost predicate FrontIs(widths: seq<nat>, key: Text, n: nat, columns: seq<Text>)
    requires n <= |widths| == |columns|
  {
    forall i :: 0 <= i < n ==> columns[i] == Slice(widths, key, i)
  }

  /** The key begins with what was sought, seen column by column. */
  ghost predicate BeginsWith(widths: seq<nat>, key: Text, level: nat, columns: seq<Text>)
    requires 1 <= level <= |widths| == |columns|
  {
    && FrontIs(widths, key, level - 1, columns)
    && Slice(widths, key, level - 1) <= columns[level - 1]
  }

  lemma {:induction false} JoinedLength(widths: seq<nat>, columns: seq<Text>, n: nat)
    requires n <= |widths| == |columns| && forall i :: 0 <= i < |columns| ==> |columns[i]| == widths[i]
    ensures |Joined(columns[..n])| == Offset(widths, n)
    decreases n
  {
    if n > 0 {
      JoinedLength(widths, columns, n - 1);
      assert columns[..n][..n - 1] == columns[..n - 1];
    }
  }

  lemma {:induction false} JoinedColumn(widths: seq<nat>, columns: seq<Text>, n: nat, i: nat)
    requires i < n <= |widths| == |columns| && forall c :: 0 <= c < |columns| ==> |columns[c]| == widths[c]
    ensures |Joined(columns[..n])| == Offset(widths, n) && Offset(widths, i + 1) <= Offset(widths, n)
    ensures Joined(columns[..n])[Offset(widths, i)..Offset(widths, i + 1)] == columns[i]
    decreases n
  {
    JoinedLength(widths, columns, n);
    JoinedLength(widths, columns, n - 1);
    assert columns[..n][..n - 1] == columns[..n - 1];
    OffsetGrows(widths, i + 1, n);
    if i < n - 1 {
      JoinedColumn(widths, columns, n - 1, i);
      OffsetGrows(widths, i + 1, n - 1);
      assert Joined(columns[..n])[..Offset(widths, n - 1)] == Joined(columns[..n - 1]);
      SliceOfPrefix(Joined(columns[..n]), Offset(widths, i), Offset(widths, i + 1), Offset(widths, n - 1));
    }
  }

  lemma SliceOfPrefix(s: Text, from: nat, to: nat, n: nat)
    requires from <= to <= n <= |s|
    ensures s[from..to] == s[..n][from..to]
  {
  }

  lemma JoinedSnoc(columns: seq<Text>, n: nat)
    requires 0 < n <= |columns|
    ensures Joined(columns[..n]) == Joined(columns[..n - 1]) + columns[n - 1]
  {
    assert columns[..n][..n - 1] == columns[..n - 1];
  }

  lemma ColumnsMakePrefix(widths: seq<nat>, key: Text, level: nat, columns: seq<Text>)
    requires 1 <= level <= |widths| == |columns| && |key| <= Offset(widths, level)
    requires BeginsWith(widths, key, level, columns)
    ensures key <= Joined(columns)
  {
    var slices := Slices(widths, key, level);
    SlicesPartition(widths, key, level);
    assert slices[..level] == slices && Joined(slices) == key;
    JoinedSnoc(slices, level);
    assert slices[..level - 1] == columns[..level - 1];
    JoinedSnoc(columns, level);
    JoinedBegins(columns, level);
  }

  /** A key that the columns cover is a prefix of the joined columns when it is one column by column. */
  lemma PrefixByColumns(widths: seq<nat>, key: Text, level: nat, columns: seq<Text>)
    requires Fits(widths, columns) && IsLevel(widths, key, level) && |key| <= Offset(widths, level)
    ensures key <= Joined(columns) <==> BeginsWith(widths, key, level, columns)
  {
    if key <= Joined(columns) {
      forall i | 0 <= i < level ensures Slice(widths, key, i) <= columns[i] && (i < level - 1 ==> Slice(widths, key, i) == columns[i]) {
        PrefixSlice(widths, key, level, columns, i);
      }
    } else if BeginsWith(widths, key, level, columns) {
      ColumnsMakePrefix(widths, key, level, columns);
    }
  }

  lemma PrefixSlice(widths: seq<nat>, key: Text, level: nat, columns: seq<Text>, i: nat)
    requires Fits(widths, columns) && IsLevel(widths, key, level) && |key| <= Offset(widths, level) && i < level
    requires key <= Joined(columns)
    ensures Slice(widths, key, i) <= columns[i] && (i < level - 1 ==> Slice(widths, key, i) == columns[i])
  {
    assert columns[..|columns|] == columns;
    JoinedColumn(widths, columns, |columns|, i);
    if i < level - 1 { OffsetGrows(widths, i + 1, level - 1); }
    PartOfPrefix(key, Joined(columns), Offset(widths, i), Offset(widths, i + 1));
  }

  lemma PartOfPrefix(key: Text, joined: Text, from: nat, to: nat)
    requires key <= joined && from <= |key| && from <= to <= |joined|
    ensures key[from..Within(key, to)] <= joined[from..to]
    ensures to <= |key| ==> key[from..Within(key, to)] == joined[from..to]
  {
    var upTo := Within(key, to);
    assert key[from..upTo] == joined[from..upTo] == joined[from..to][..upTo - from];
  }

  lemma {:induction false} JoinedBegins(columns: seq<Text>, n: nat)
    requires n <= |columns|
    ensures Joined(columns[..n]) <= Joined(columns)
    decreases |columns| - n
  {
    if n < |columns| {
      JoinedBegins(columns, n + 1);
      assert columns[..n + 1][..n] == columns[..n];
    } else {
      assert columns[..n] == columns;
    }
  }

  // ---------------------------------------------------------------- the first row is the right one

  /** Padding undoes the trim, and stands for the blank of an empty slice. */
  lemma PadBound(slice: Text, width: nat)
    requires |slice| <= width && width > 0
    ensures PadTo(BoundValue(slice, false), width) == PadTo(slice, width)
  {
    TrimmedLengthIs(slice);
    var n := TrimmedLength(slice);
    assert forall k :: n <= k < |slice| ==> slice[k] == BLANK;
  }

  lemma SliceLength(widths: seq<nat>, key: Text, level: nat, i: nat)
    requires IsLevel(widths, key, level) && i < level
    ensures |Slice(widths, key, i)| <= widths[i]
    ensures i < level - 1 ==> |Slice(widths, key, i)| == widths[i]
  {
    if i < level - 1 { OffsetGrows(widths, i + 1, level - 1); }
  }

  /** The WHERE clause, in terms of the slices. */
  ghost predicate SliceWhere(widths: seq<nat>, key: Text, level: nat, columns: seq<Text>)
    requires 1 <= level <= |widths| == |columns|
  {
    && FrontIs(widths, key, level - 1, columns)
    && |Slice(widths, key, level - 1)| <= |columns[level - 1]|
    && !Less(columns[level - 1], PadTo(Slice(widths, key, level - 1), |columns[level - 1]|))
  }

  /** The bindings of an index without NULLs. */
  ghost predicate Bound(widths: seq<nat>, key: Text, level: nat, values: seq<Text>)
    requires level <= |widths| == |values|
  {
    forall c :: 0 <= c < level ==> values[c] == BoundValue(Slice(widths, key, c), false)
  }

  /** What FeedSeekKeyToBindings leaves when no column can be NULL. */
  lemma FedIsBound(widths: seq<nat>, isNullable: seq<bool>, key: Text, values: seq<Text>, nulls: seq<bool>, level: nat)
    requires level <= |widths| == |isNullable| == |values| == |nulls|
    requires Fed(widths, isNullable, key, values, nulls, level) && forall c :: 0 <= c < level ==> !isNullable[c]
    ensures Bound(widths, key, level, values) && forall c :: 0 <= c < level ==> !nulls[c]
  {
    forall c | 0 <= c < level ensures values[c] == BoundValue(Slice(widths, key, c), false) && !nulls[c] {
      FedAt(widths, isNullable, key, values, nulls, level, c);
    }
  }

  lemma BoundColumn(slice: Text, width: nat, column: Text)
    requires |slice| <= width && width > 0 && |column| == width
    ensures EqualsBound(column, BoundValue(slice, false)) <==> column == PadTo(slice, width)
    ensures NotBelowBound(column, BoundValue(slice, false)) <==> !Less(column, PadTo(slice, width))
  {
    PadBound(slice, width);
    TrimmedLengthIs(slice);
  }

  lemma WhereColumn(widths: seq<nat>, key: Text, level: nat, values: seq<Text>, columns: seq<Text>, i: nat)
    requires IsLevel(widths, key, level) && |values| == |widths| == |columns| && Bound(widths, key, level, values)
    requires i < level && widths[i] > 0 && |columns[i]| == widths[i]
    ensures |Slice(widths, key, i)| <= |columns[i]|
    ensures i < level - 1 ==> (EqualsBound(columns[i], values[i]) <==> columns[i] == Slice(widths, key, i))
    ensures NotBelowBound(columns[i], values[i]) <==> !Less(columns[i], PadTo(Slice(widths, key, i), |columns[i]|))
  {
    SliceLength(widths, key, level, i);
    BoundColumn(Slice(widths, key, i), widths[i], columns[i]);
  }

  lemma FrontMatches(widths: seq<nat>, key: Text, level: nat, values: seq<Text>, columns: seq<Text>)
    requires IsLevel(widths, key, level) && |values| == |widths| && Bound(widths, key, level, values)
    requires Fits(widths, columns) && forall i :: 0 <= i < |widths| ==> widths[i] > 0
    ensures FrontEquals(values, level - 1, columns) <==> FrontIs(widths, key, level - 1, columns)
  {
    forall i | 0 <= i < level - 1 ensures EqualsBound(columns[i], values[i]) <==> columns[i] == Slice(widths, key, i) {
      WhereColumn(widths, key, level, values, columns, i);
    }
  }

  lemma WhereIsSliceWhere(widths: seq<nat>, key: Text, level: nat, values: seq<Text>, columns: seq<Text>)
    requires IsLevel(widths, key, level) && |values| == |widths| && Bound(widths, key, level, values)
    requires Fits(widths, columns) && forall i :: 0 <= i < |widths| ==> widths[i] > 0
    ensures SeekWhere(values, level, columns) <==> SliceWhere(widths, key, level, columns)
  {
    FrontMatches(widths, key, level, values, columns);
    WhereColumn(widths, key, level, values, columns, level - 1);
  }

  lemma PadIsLowest(slice: Text, column: Text, width: nat)
    requires FitsColumn(column, width) && slice <= column
    ensures !Less(column, PadTo(slice, width))
  {
    var p := PadTo(slice, width);
    forall j | 0 <= j < |column| ensures !LessAt(column, p, j) {
      if j < |slice| { assert p[j] == slice[j] == column[j]; }
    }
  }

  /** What lies between the padded slice and a text that begins with the slice begins with it too. */
  lemma Between(slice: Text, low: Text, high: Text)
    requires |slice| <= |low| == |high| && slice <= high
    requires !Less(low, PadTo(slice, |low|)) && !Less(high, low)
    ensures slice <= low
  {
    if !(slice <= low) {
      var m := FirstDifference(slice, low[..|slice|]);
      var p := PadTo(slice, |low|);
      assert forall k :: 0 <= k <= m ==> p[k] == slice[k] == high[k];
      assert forall k :: 0 <= k < m ==> low[k] == low[..|slice|][k];
      if low[m] < slice[m] {
        assert LessAt(low, p, m);
      } else {
        assert LessAt(high, low, m);
      }
    }
  }

  // ---------------------------------------------------------------- comparing the row's key

  /** sqlKeyCompareEx on two strings: both lengths are kept in a byte. */
  function KeyCompare(value: Text, key: Text): bool
  {
    var len1, len2 := |value| % 256, |key| % 256;
    var limit := if len1 > len2 then len2 else len1;
    value[..limit] == key[..limit] && len1 >= len2
  }

  /** The lengths for which the comparison means what it should. */
  predicate CompareWorks(valueLength: nat, keyLength: nat)
  {
    if keyLength < 256 then keyLength > valueLength || keyLength <= valueLength % 256
    else keyLength > valueLength && valueLength % 256 < keyLength % 256
  }

  ghost predicate ComparesPrefixes(m: nat, k: nat)
  {
    forall value: Text, key: Text :: |value| == m && |key| == k ==> (KeyCompare(value, key) <==> key <= value)
  }

  lemma ComparesWhere(m: nat, k: nat, value: Text, key: Text)
    requires CompareWorks(m, k) && |value| == m && |key| == k
    ensures KeyCompare(value, key) <==> key <= value
  {
  }

  function Repeated(n: nat): (r: Text)
    ensures |r| == n
  {
    seq(n, _ => BLANK + 2)
  }

  /** The key of the same characters, but for a lower one at its end if `lowered`. */
  function NearlyUniform(k: nat, lowered: bool): (key: Text)
    requires lowered ==> k > 0
    ensures |key| == k
  {
    if lowered then Repeated(k)[k - 1 := BLANK + 1] else Repeated(k)
  }

  /** Texts for which the comparison goes wrong. */
  lemma UniformMisCompares(m: nat, k: nat)
    requires !CompareWorks(m, k)
    ensures var lowered := k <= m && m % 256 >= k % 256;
            && (lowered ==> k > 0)
            && KeyCompare(Repeated(m), NearlyUniform(k, lowered)) != (NearlyUniform(k, lowered) <= Repeated(m))
  {
    var lowered := k <= m && m % 256 >= k % 256;
    var key := NearlyUniform(k, lowered);
    if lowered {
      assert key[..k % 256] == Repeated(m)[..k % 256] && key[k - 1] != Repeated(m)[k - 1];
    }
  }

  /** The comparison tests for a prefix, whatever the characters, exactly for these lengths; for keys and index widths
      below 256 it always does. */
  lemma ComparesExactly(m: nat, k: nat)
    ensures ComparesPrefixes(m, k) <==> CompareWorks(m, k)
    ensures m < 256 && k < 256 ==> CompareWorks(m, k)
  {
    if CompareWorks(m, k) {
      forall value: Text, key: Text | |value| == m && |key| == k
        ensures KeyCompare(value, key) <==> key <= value
      {
        ComparesWhere(m, k, value, key);
      }
    } else {
      UniformMisCompares(m, k);
    }
  }

  // ---------------------------------------------------------------- what a seek finds

  datatype Answer = NoRow | FirstRow(columns: seq<Text>)

  ghost predicate Answers(rows: seq<seq<Text>>, values: seq<Text>, level: nat, answer: Answer)
    requires 1 <= level <= |values|
    requires forall r :: r in rows ==> |r| == |values|
  {
    match answer
    case NoRow => forall r :: r in rows ==> !SeekWhere(values, level, r)
    case FirstRow(columns) => IsFirst(rows, values, level, columns)
  }

  /** fFound after the seek. */
  function Found(answer: Answer, key: Text): bool
  {
    answer.FirstRow? && KeyCompare(Joined(answer.columns), key)
  }

  /** An index of NOT NULL character columns, and the statement of a forward seek for `key`. */
  ghost predicate Seekable(widths: seq<nat>, rows: seq<seq<Text>>, key: Text, level: nat, values: seq<Text>)
  {
    && (forall i :: 0 <= i < |widths| ==> widths[i] > 0)
    && (forall r :: r in rows ==> Fits(widths, r))
    && IsLevel(widths, key, level) && |values| == |widths| && Bound(widths, key, level, values)
  }

  lemma PrefixMatches(widths: seq<nat>, key: Text, level: nat, columns: seq<Text>)
    requires IsLevel(widths, key, level) && Fits(widths, columns) && BeginsWith(widths, key, level, columns)
    ensures SliceWhere(widths, key, level, columns)
  {
    PadIsLowest(Slice(widths, key, level - 1), columns[level - 1], widths[level - 1]);
  }

  lemma FirstBegins(widths: seq<nat>, key: Text, level: nat, first: seq<Text>, r: seq<Text>)
    requires IsLevel(widths, key, level) && Fits(widths, first) && Fits(widths, r)
    requires SliceWhere(widths, key, level, first) && BeginsWith(widths, key, level, r) && !ColumnsLess(r, first)
    ensures BeginsWith(widths, key, level, first)
  {
    var c := level - 1;
    assert r[..c] == first[..c];
    assert ColumnsLessAt(r, first, c) <==> Less(r[c], first[c]);
    Between(Slice(widths, key, c), first[c], r[c]);
  }

  lemma JoinedWidth(widths: seq<nat>, columns: seq<Text>)
    requires Fits(widths, columns)
    ensures |Joined(columns)| == Offset(widths, |widths|)
  {
    JoinedLength(widths, columns, |widths|);
    assert columns[..|widths|] == columns;
  }

  /** If some row's key begins with what is sought, the answer is a row whose key does. */
  lemma AnswerBegins(widths: seq<nat>, rows: seq<seq<Text>>, key: Text, level: nat, values: seq<Text>, answer: Answer, r: seq<Text>)
    requires Seekable(widths, rows, key, level, values) && Answers(rows, values, level, answer)
    requires r in rows && key <= Joined(r)
    ensures answer.FirstRow? && key <= Joined(answer.columns) && !ColumnsLess(r, answer.columns)
  {
    JoinedWidth(widths, r);
    PrefixByColumns(widths, key, level, r);
    PrefixMatches(widths, key, level, r);
    WhereIsSliceWhere(widths, key, level, values, r);
    var first := answer.columns;
    WhereIsSliceWhere(widths, key, level, values, first);
    FirstBegins(widths, key, level, first, r);
    PrefixByColumns(widths, key, level, first);
  }

  /** A forward seek for a string key on an ascending index of NOT NULL character columns finds a row exactly when the
      table has one whose key begins with the string, and then it is on the first of these rows. */
  lemma SeekFindsExactly(widths: seq<nat>, rows: seq<seq<Text>>, key: Text, level: nat, values: seq<Text>, answer: Answer)
    requires Seekable(widths, rows, key, level, values) && Answers(rows, values, level, answer)
    requires CompareWorks(Offset(widths, |widths|), |key|)
    ensures Found(answer, key) <==> exists r :: r in rows && key <= Joined(r)
    ensures Found(answer, key) ==>
              && answer.columns in rows && key <= Joined(answer.columns)
              && forall r :: r in rows && key <= Joined(r) ==> !ColumnsLess(r, answer.columns)
  {
    ComparesExactly(Offset(widths, |widths|), |key|);
    forall r | r in rows ensures KeyCompare(Joined(r), key) <==> key <= Joined(r) {
      JoinedWidth(widths, r);
    }
    forall r | r in rows && key <= Joined(r)
      ensures answer.FirstRow? && key <= Joined(answer.columns) && !ColumnsLess(r, answer.columns)
    {
      AnswerBegins(widths, rows, key, level, values, answer, r);
    }
  }

  // ---------------------------------------------------------------- the lengths for which fFound is right

  lemma {:induction false} LevelExists(widths: seq<nat>, key: Text, n: nat) returns (level: nat)
    requires 1 <= n <= |widths| && (n > 1 ==> Offset(widths, n - 1) < |key|)
    ensures IsLevel(widths, key, level)
    decreases |widths| - n
  {
    level := n;
    if n < |widths| && Offset(widths, n) < |key| { level := LevelExists(widths, key, n + 1); }
  }

  /** The row all of whose characters are the same. */
  function UniformRow(widths: seq<nat>): (r: seq<Text>)
    ensures |r| == |widths|
  {
    Slices(widths, Repeated(Offset(widths, |widths|)), |widths|)
  }

  lemma UniformRowAt(widths: seq<nat>, i: nat)
    requires i < |widths|
    ensures UniformRow(widths)[i] == Repeated(widths[i]) && FitsColumn(UniformRow(widths)[i], widths[i])
  {
    OffsetGrows(widths, i + 1, |widths|);
    var row := Repeated(Offset(widths, |widths|));
    assert UniformRow(widths)[i] == row[Offset(widths, i)..Offset(widths, i + 1)];
  }

  lemma UniformRowFits(widths: seq<nat>)
    ensures Fits(widths, UniformRow(widths)) && Joined(UniformRow(widths)) == Repeated(Offset(widths, |widths|))
  {
    var row := Repeated(Offset(widths, |widths|));
    SlicesPartition(widths, row, |widths|);
    assert row[..|row|] == row;
    forall i | 0 <= i < |widths| ensures FitsColumn(UniformRow(widths)[i], widths[i]) {
      UniformRowAt(widths, i);
    }
  }

  lemma FrontIsUniform(widths: seq<nat>, k: nat, lowered: bool, level: nat, i: nat)
    requires (lowered ==> k > 0) && IsLevel(widths, NearlyUniform(k, lowered), level) && i < level - 1
    ensures UniformRow(widths)[i] == Slice(widths, NearlyUniform(k, lowered), i)
  {
    var key := NearlyUniform(k, lowered);
    UniformRowAt(widths, i);
    OffsetGrows(widths, i + 1, level - 1);
    assert Slice(widths, key, i) == key[Offset(widths, i)..Offset(widths, i + 1)];
  }

  lemma LastIsNotAfter(slice: Text, width: nat)
    requires |slice| <= width
    requires forall j :: 0 <= j < |slice| ==> slice[j] <= BLANK + 2
    ensures !Less(Repeated(width), PadTo(slice, width))
  {
    forall j | 0 <= j < width ensures !LessAt(Repeated(width), PadTo(slice, width), j) {
    }
  }

  lemma UniformRowMatches(widths: seq<nat>, k: nat, lowered: bool, level: nat)
    requires (lowered ==> k > 0) && IsLevel(widths, NearlyUniform(k, lowered), level)
    ensures SliceWhere(widths, NearlyUniform(k, lowered), level, UniformRow(widths))
  {
    var key, c := NearlyUniform(k, lowered), level - 1;
    forall i | 0 <= i < c ensures UniformRow(widths)[i] == Slice(widths, key, i) {
      FrontIsUniform(widths, k, lowered, level, i);
    }
    UniformRowAt(widths, c);
    SliceLength(widths, key, level, c);
    assert forall j :: 0 <= j < |key| ==> key[j] <= BLANK + 2;
    LastIsNotAfter(Slice(widths, key, c), widths[c]);
  }

  ghost predicate SeeksRightly(widths: seq<nat>, rows: seq<seq<Text>>, key: Text)
  {
    forall level: nat, values: seq<Text>, answer: Answer ::
      Seekable(widths, rows, key, level, values) && Answers(rows, values, level, answer) ==>
        (Found(answer, key) <==> exists r :: r in rows && key <= Joined(r))
  }

  function BoundValues(widths: seq<nat>, key: Text): (values: seq<Text>)
    ensures |values| == |widths|
  {
    seq(|widths|, c requires 0 <= c < |widths| => BoundValue(Slice(widths, key, c), false))
  }

  lemma OnlyRowIsFirst(values: seq<Text>, level: nat, row: seq<Text>)
    requires 1 <= level <= |values| == |row| && SeekWhere(values, level, row)
    ensures Answers([row], values, level, FirstRow(row))
  {
    assert row in [row];
    forall i | 0 <= i < |row| ensures !ColumnsLessAt(row, row, i) {
      NotLessItself(row[i]);
    }
  }

  lemma OnlyRowFits(widths: seq<nat>, row: seq<Text>)
    requires Fits(widths, row)
    ensures forall r :: r in [row] ==> Fits(widths, r)
  {
  }

  lemma UniformAnswer(widths: seq<nat>, k: nat, lowered: bool, level: nat)
    requires (forall i :: 0 <= i < |widths| ==> widths[i] > 0) && (lowered ==> k > 0)
    requires IsLevel(widths, NearlyUniform(k, lowered), level)
    ensures var row, values := UniformRow(widths), BoundValues(widths, NearlyUniform(k, lowered));
            && Seekable(widths, [row], NearlyUniform(k, lowered), level, values)
            && Answers([row], values, level, FirstRow(row))
  {
    hide IsFirst, SliceWhere, UniformRow, NearlyUniform, SeekWhere;
    var row, values := UniformRow(widths), BoundValues(widths, NearlyUniform(k, lowered));
    UniformRowFits(widths);
    OnlyRowFits(widths, row);
    UniformRowMatches(widths, k, lowered, level);
    WhereIsSliceWhere(widths, NearlyUniform(k, lowered), level, values, row);
    OnlyRowIsFirst(values, level, row);
  }

  lemma WrongAnswer(widths: seq<nat>, row: seq<Text>, key: Text, level: nat, values: seq<Text>)
    requires Seekable(widths, [row], key, level, values) && Answers([row], values, level, FirstRow(row))
    requires KeyCompare(Joined(row), key) != (key <= Joined(row))
    ensures !SeeksRightly(widths, [row], key)
  {
    var answer := FirstRow(row);
    assert Seekable(widths, [row], key, level, values) && Answers([row], values, level, answer);
    assert row in [row] && forall r :: r in [row] ==> r == row;
    assert Found(answer, key) == KeyCompare(Joined(row), key);
  }

  lemma SeeksWrongly(widths: seq<nat>, k: nat, lowered: bool)
    requires |widths| > 0 && (forall i :: 0 <= i < |widths| ==> widths[i] > 0) && (lowered ==> k > 0)
    requires var row, key := Repeated(Offset(widths, |widths|)), NearlyUniform(k, lowered);
             KeyCompare(row, key) != (key <= row)
    ensures !SeeksRightly(widths, [UniformRow(widths)], NearlyUniform(k, lowered))
  {
    var key, row := NearlyUniform(k, lowered), UniformRow(widths);
    var level := LevelExists(widths, key, 1);
    UniformAnswer(widths, k, lowered, level);
    UniformRowFits(widths);
    WrongAnswer(widths, row, key, level, BoundValues(widths, key));
  }

  ghost predicate AlwaysSeeksRightly(widths: seq<nat>, k: nat)
  {
    forall rows: seq<seq<Text>>, key: Text :: |key| == k ==> SeeksRightly(widths, rows, key)
  }

  /** For keys of length `k`, fFound is right over all tables exactly for the lengths that the comparison can bear. */
  lemma SeekWorksExactly(widths: seq<nat>, k: nat)
    requires |widths| > 0 && forall i :: 0 <= i < |widths| ==> widths[i] > 0
    ensures AlwaysSeeksRightly(widths, k) <==> CompareWorks(Offset(widths, |widths|), k)
  {
    var m := Offset(widths, |widths|);
    if CompareWorks(m, k) {
      forall rows: seq<seq<Text>>, key: Text, level: nat, values: seq<Text>, answer: Answer
        | |key| == k && Seekable(widths, rows, key, level, values) && Answers(rows, values, level, answer)
        ensures Found(answer, key) <==> exists r :: r in rows && key <= Joined(r)
      {
        SeekFindsExactly(widths, rows, key, level, values, answer);
      }
    } else {
      var lowered := k <= m && m % 256 >= k % 256;
      UniformMisCompares(m, k);
      SeeksWrongly(widths, k, lowered);
    }
  }

  // ---------------------------------------------------------------- the whole seek

  /** `execute` answers a statement, given its bound values and how many columns it compares, as the database does. */
  ghost predicate Executes(rows: seq<seq<Text>>, width: nat, execute: (seq<Text>, nat) -> Answer)
  {
    && (forall r :: r in rows ==> |r| == width)
    && forall values: seq<Text>, level: nat :: 1 <= level <= |values| == width ==> Answers(rows, values, level, execute(values, level))
  }

  /** From the key to fFound: the key is split over the columns, the statement is executed, and its row is compared. */
  method FindKey(s: SeekBind, key: Text, ghost rows: seq<seq<Text>>, execute: (seq<Text>, nat) -> Answer)
    returns (fFound: bool, row: Answer)
    requires s.Valid() && (forall i :: 0 <= i < |s.widths| ==> !s.isNullable[i]) && forall r :: r in rows ==> Fits(s.widths, r)
    requires Executes(rows, |s.widths|, execute) && CompareWorks(Offset(s.widths, |s.widths|), |key|)
    modifies s`bRebuildSeekQuery, s.asChar, s.isArgumentNull
    ensures fFound <==> exists r :: r in rows && key <= Joined(r)
    ensures fFound ==> row.FirstRow? && row.columns in rows && key <= Joined(row.columns)
                       && forall r :: r in rows && key <= Joined(r) ==> !ColumnsLess(r, row.columns)
  {
    var queryLevel := s.FeedSeekKeyToBindings(key);
    ghost var values := s.asChar[..];
    FedIsBound(s.widths, s.isNullable, key, values, s.isArgumentNull[..], queryLevel);
    row := execute(s.asChar[..], queryLevel);
    SeekFindsExactly(s.widths, rows, key, queryLevel, values, row);
    fFound := Found(row, key);
  }

  // ---------------------------------------------------------------- soft seek

  /** The key as a row: its slices padded with blanks. */
  function Target(widths: seq<nat>, key: Text): (columns: seq<Text>)
    ensures |columns| == |widths|
  {
    seq(|widths|, i requires 0 <= i < |widths| => PadTo(Slice(widths, key, i), widths[i]))
  }

  lemma TargetColumn(widths: seq<nat>, key: Text, level: nat, i: nat)
    requires IsLevel(widths, key, level) && i < |widths|
    ensures i < level - 1 ==> Target(widths, key)[i] == Slice(widths, key, i)
    ensures i >= level ==> Target(widths, key)[i] == PadTo([], widths[i])
  {
    if i < level - 1 {
      SliceLength(widths, key, level, i);
    } else if i >= level {
      OffsetGrows(widths, level, i);
    }
  }

  lemma NotLessItself(a: Text)
    ensures !Less(a, a)
  {
    if Less(a, a) { LessIsAsymmetric(a, a); }
  }

  lemma MatchIsNotBeforeAt(widths: seq<nat>, key: Text, level: nat, columns: seq<Text>, i: nat)
    requires IsLevel(widths, key, level) && Fits(widths, columns) && SliceWhere(widths, key, level, columns) && i < |columns|
    ensures |columns[i]| == |Target(widths, key)[i]| ==> !Less(columns[i], Target(widths, key)[i])
  {
    TargetColumn(widths, key, level, i);
    if i < level - 1 {
      NotLessItself(columns[i]);
    } else if i >= level {
      PadIsLowest([], columns[i], widths[i]);
    }
  }

  lemma MatchIsNotBefore(widths: seq<nat>, key: Text, level: nat, columns: seq<Text>)
    requires IsLevel(widths, key, level) && Fits(widths, columns) && SliceWhere(widths, key, level, columns)
    ensures !ColumnsLess(columns, Target(widths, key))
  {
    var target := Target(widths, key);
    forall i | 0 <= i < |columns| ensures !ColumnsLessAt(columns, target, i) {
      MatchIsNotBeforeAt(widths, key, level, columns, i);
    }
  }

  /** A soft seek is meant for the first row not before the key, `next`. It goes there exactly when that row has the
      key's columns before the last one used; otherwise there is no answer, and the position becomes EOF. */
  lemma SoftSeekExactly(widths: seq<nat>, rows: seq<seq<Text>>, key: Text, level: nat, values: seq<Text>, answer: Answer, next: seq<Text>)
    requires Seekable(widths, rows, key, level, values) && Answers(rows, values, level, answer)
    requires next in rows && !ColumnsLess(next, Target(widths, key))
    requires forall r :: r in rows && !ColumnsLess(r, Target(widths, key)) ==> !ColumnsLess(r, next)
    ensures answer.FirstRow? <==> next[..level - 1] == Slices(widths, key, level - 1)
    ensures answer.FirstRow? ==> !ColumnsLess(next, answer.columns) && !ColumnsLess(answer.columns, next)
  {
    if next[..level - 1] == Slices(widths, key, level - 1) {
      NextMatches(widths, key, level, next);
      WhereIsSliceWhere(widths, key, level, values, next);
    }
    if answer.FirstRow? {
      var first := answer.columns;
      WhereIsSliceWhere(widths, key, level, values, first);
      MatchIsNotBefore(widths, key, level, first);
      NextAgrees(widths, key, level, first, next);
    }
  }

  /** The index has two columns of one character and a row "BA". A soft seek for "AB" is meant for that row, and gets none. */
  lemma SoftSeekMisses(answer: Answer)
    requires Answers([[[66], [65]]], BoundValues([1, 1], [65, 66]), 2, answer)
    ensures answer == NoRow && !ColumnsLess([[66], [65]], Target([1, 1], [65, 66]))
  {
    var widths, key, row := [1, 1], [65, 66], [[66], [65]];
    assert Offset(widths, 0) == 0 && Offset(widths, 1) == 1 && Offset(widths, 2) == 2;
    assert Slice(widths, key, 0) == [65] && Slice(widths, key, 1) == [66];
    assert TrimmedLength([65]) == 1;
    assert BoundValues(widths, key)[0] == [65];
    assert !SeekWhere(BoundValues(widths, key), 2, row) by {
      assert !EqualsBound(row[0], [65]);
    }
    assert row in [row];
    var target := Target(widths, key);
    assert target[0] == [65] && target[1] == [66];
    assert !ColumnsLessAt(row, target, 0) by {
      assert LessAt([66], [65], 0) <==> false;
    }
    assert !ColumnsLessAt(row, target, 1) by {
      assert row[..1][0] != target[..1][0];
    }
  }

  lemma NextMatches(widths: seq<nat>, key: Text, level: nat, next: seq<Text>)
    requires IsLevel(widths, key, level) && Fits(widths, next) && !ColumnsLess(next, Target(widths, key))
    requires next[..level - 1] == Slices(widths, key, level - 1)
    ensures SliceWhere(widths, key, level, next)
  {
    var target, c := Target(widths, key), level - 1;
    NextFront(widths, key, level, next);
    SliceLength(widths, key, level, c);
    assert target[c] == PadTo(Slice(widths, key, c), widths[c]);
    assert ColumnsLessAt(next, target, c) <==> Less(next[c], target[c]);
  }

  lemma NextFront(widths: seq<nat>, key: Text, level: nat, next: seq<Text>)
    requires IsLevel(widths, key, level) && |next| == |widths| && next[..level - 1] == Slices(widths, key, level - 1)
    ensures FrontIs(widths, key, level - 1, next) && next[..level - 1] == Target(widths, key)[..level - 1]
  {
    forall i | 0 <= i < level - 1 ensures next[i] == Slice(widths, key, i) == Target(widths, key)[i] {
      assert next[i] == next[..level - 1][i] == Slices(widths, key, level - 1)[i];
      TargetColumn(widths, key, level, i);
    }
  }

  lemma AgreesBeforeLast(widths: seq<nat>, key: Text, level: nat, columns: seq<Text>)
    requires IsLevel(widths, key, level) && |columns| == |widths| && SliceWhere(widths, key, level, columns)
    ensures columns[..level - 1] == Slices(widths, key, level - 1) == Target(widths, key)[..level - 1]
  {
    forall i | 0 <= i < level - 1 ensures columns[i] == Slice(widths, key, i) == Target(widths, key)[i] {
      TargetColumn(widths, key, level, i);
    }
    assert columns[..level - 1] == Slices(widths, key, level - 1);
  }

  lemma SameWidths(widths: seq<nat>, a: seq<Text>, b: seq<Text>)
    requires Fits(widths, a) && Fits(widths, b)
    ensures forall i :: 0 <= i < |a| ==> |a[i]| == |b[i]|
  {
  }

  lemma NextAgrees(widths: seq<nat>, key: Text, level: nat, first: seq<Text>, next: seq<Text>)
    requires IsLevel(widths, key, level) && Fits(widths, first) && Fits(widths, next)
    requires SliceWhere(widths, key, level, first)
    requires !ColumnsLess(next, Target(widths, key)) && !ColumnsLess(first, next)
    ensures next[..level - 1] == Slices(widths, key, level - 1)
  {
    hide SliceWhere, ColumnsLess;
    AgreesBeforeLast(widths, key, level, first);
    SameWidths(widths, next, first);
    NotOutside(first, Target(widths, key), next, level - 1);
  }

  /** What is neither before `target` nor after `first` has the columns on which the two agree. */
  lemma {:induction false} NotOutside(first: seq<Text>, target: seq<Text>, next: seq<Text>, n: nat)
    requires n <= |first| == |target| == |next| && first[..n] == target[..n]
    requires forall i :: 0 <= i < n ==> |next[i]| == |first[i]|
    requires !ColumnsLess(next, target) && !ColumnsLess(first, next)
    ensures next[..n] == first[..n]
    decreases n
  {
    if n > 0 {
      assert first[..n - 1] == first[..n][..n - 1] == target[..n - 1];
      NotOutside(first, target, next, n - 1);
      assert first[n - 1] == first[..n][n - 1] == target[n - 1];
      LessIsTotal(next[n - 1], first[n - 1]);
      assert ColumnsLessAt(next, target, n - 1) <==> Less(next[n - 1], first[n - 1]);
      assert ColumnsLessAt(first, next, n - 1) <==> Less(first[n - 1], next[n - 1]);
    }
  }
}
