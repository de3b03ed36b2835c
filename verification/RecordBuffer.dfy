/** The record buffer of SQLEX: the columns of the current record, some of them not read yet; the pool of records
    that were read; and the list of columns that a statement asks for, which follows what the program reads.
 */
module RecordBuffer {

  /** A column of a buffered record: NIL until it is needed. */
  datatype Item = Nil | Value(v: int)

  /** A column of a result set; `Field(i)` is field `i` of the workarea, counted from 0. */
  datatype Column = Recno | Deleted | Field(i: nat)

  datatype ListStatus = Learning | Stable | Changed | NewValueRead

  // ---------------------------------------------------------------- what a program should see

  /** A record buffer without a pool, without columns that are not read yet: the table by fields, the record that is
      shown, and where it belongs. */
  datatype Plain = Plain(table: map<nat, seq<int>>, empty: seq<int>, eof: bool, recno: nat, record: seq<int>)

  datatype Op = Read(f: nat) | Write(f: nat, v: int) | MoveTo(list: seq<nat>, again: bool) | ToPhantom | Flush

  function PlainFlush(p: Plain): Plain
  {
    if p.eof then p else p.(table := p.table[p.recno := p.record])
  }

  function PlainPhantom(p: Plain): Plain
  {
    PlainFlush(p).(eof := true, record := p.empty)
  }

  function PlainMove(p: Plain, r: nat): Plain
  {
    var q := PlainFlush(p);
    if r in q.table then Plain(q.table, q.empty, false, r, q.table[r]) else PlainPhantom(p)
  }

  function PlainDo(p: Plain, op: Op): Plain
  {
    match op
    case Read(f) => p
    case Write(f, v) => if f < |p.record| then p.(record := p.record[f := v]) else p
    case MoveTo(list, again) => if list == [] then p else PlainMove(p, list[0])
    case ToPhantom => PlainPhantom(p)
    case Flush => PlainFlush(p)
  }

  /** What the reads among `ops` return. */
  function PlainRun(p: Plain, ops: seq<Op>): seq<int>
    decreases |ops|
  {
    if ops == [] then []
    else
      (if ops[0].Read? && ops[0].f < |p.record| then [p.record[ops[0].f]] else [])
      + PlainRun(PlainDo(p, ops[0]), ops[1..])
  }

  /** What a program may rely on: a call changes at most the row of the record that is shown, and that only to what is shown;
      and it never adds or removes a row. */
  lemma OnlyShownRowChanges(p: Plain, op: Op)
    requires !p.eof ==> p.recno in p.table
    ensures var q := PlainDo(p, op);
            && q.table.Keys == p.table.Keys
            && forall r :: r in p.table ==> q.table[r] == p.table[r] || (!p.eof && r == p.recno && q.table[r] == p.record)
  {
  }

  /** A field that was written reads back after any move away and back again, and the other fields are as they were. */
  lemma WrittenReadsBack(p: Plain, f: nat, g: nat, v: int, away: Op)
    requires !p.eof && p.recno in p.table && f < |p.record| && g < |p.record|
    requires away.MoveTo? || away.ToPhantom? || away.Flush?
    ensures PlainRun(p, [Write(f, v), away, MoveTo([p.recno], false), Read(g)]) == [if g == f then v else p.record[g]]
  {
    var written := PlainDo(p, Write(f, v));
    var gone := PlainDo(written, away);
    var back := PlainDo(gone, MoveTo([p.recno], false));
    assert back.record == p.record[f := v];
    var ops := [Write(f, v), away, MoveTo([p.recno], false), Read(g)];
    assert ops[1..] == [away, MoveTo([p.recno], false), Read(g)];
    assert ops[1..][1..] == [MoveTo([p.recno], false), Read(g)];
    assert ops[1..][1..][1..] == [Read(g)];
    assert PlainRun(back, [Read(g)][1..]) == [];
    assert PlainRun(back, [Read(g)]) == [back.record[g]];
    assert PlainRun(gone, ops[1..][1..]) == [back.record[g]];
    assert PlainRun(written, ops[1..]) == [back.record[g]];
  }

  // ---------------------------------------------------------------- the list of columns

  /** The fields before `n` that a statement asks for: all of them, or the ones that are marked. */
  function Chosen(marks: seq<bool>, all: bool, n: nat): seq<nat>
    requires n <= |marks|
  {
    if n == 0 then []
    else if all || marks[n - 1] then Chosen(marks, all, n - 1) + [n - 1]
    else Chosen(marks, all, n - 1)
  }

  function Header(hasDeleted: bool): seq<Column>
  {
    if hasDeleted then [Recno, Deleted] else [Recno]
  }

  function Fields(list: seq<nat>): (r: seq<Column>)
    ensures |r| == |list|
  {
    seq(|list|, i requires 0 <= i < |list| => Field(list[i]))
  }

  /** The columns of a statement: RECNO, then the deletion mark when the table has one, then the fields. */
  function ColumnList(hasDeleted: bool, marks: seq<bool>, all: bool): seq<Column>
  {
    Header(hasDeleted) + Fields(Chosen(marks, all, |marks|))
  }

  lemma {:induction false} ChosenGrows(marks: seq<bool>, all: bool, m: nat, n: nat)
    requires m <= n <= |marks|
    ensures Chosen(marks, all, m) <= Chosen(marks, all, n)
    decreases n
  {
    if m < n { ChosenGrows(marks, all, m, n - 1); }
  }

  /** A field is in the list after the chosen fields before it. */
  lemma FieldIsListed(hasDeleted: bool, marks: seq<bool>, all: bool, i: nat)
    requires i < |marks| && (all || marks[i])
    ensures var list := ColumnList(hasDeleted, marks, all);
            var k := |Header(hasDeleted)| + |Chosen(marks, all, i)|;
            k < |list| && list[k] == Field(i)
  {
    ChosenGrows(marks, all, i + 1, |marks|);
    assert Chosen(marks, all, i + 1)[|Chosen(marks, all, i)|] == i;
  }

  // ---------------------------------------------------------------- the record that a fetch makes

  /** Where the columns of the fields are in the buffer (`index`), and where a fetch puts them: field `c` into slot `c`. */
  function FetchedRecord(row: seq<int>, index: seq<nat>, marks: seq<bool>, all: bool): (record: seq<Item>)
    requires |marks| == |index| && forall f :: 0 <= f < |index| ==> index[f] < |row|
    ensures |record| == |row|
  {
    seq(|row|, c requires 0 <= c < |row| =>
      if c < |index| && (all || marks[c]) then Value(row[index[c]]) else Nil)
  }

  predicate Injective(index: seq<nat>, columns: nat)
  {
    && (forall f :: 0 <= f < |index| ==> index[f] < columns)
    && (forall f, g :: 0 <= f < g < |index| ==> index[f] != index[g])
  }

  predicate Aligned(index: seq<nat>)
  {
    forall f :: 0 <= f < |index| ==> index[f] == f || index[f] >= |index|
  }

  /** The slot that a field is read from holds its column, or is still to be filled. */
  predicate OwnColumn(record: seq<Item>, row: seq<int>, c: nat)
  {
    c < |record| && c < |row| && (record[c] == Nil || record[c] == Value(row[c]))
  }

  ghost predicate FetchesOwnColumns(index: seq<nat>, columns: nat)
    requires Injective(index, columns)
  {
    forall row: seq<int>, marks: seq<bool>, all: bool, f ::
      |row| == columns && |marks| == |index| && 0 <= f < |index| ==>
        OwnColumn(FetchedRecord(row, index, marks, all), row, index[f])
  }

  /** A fetch fills the slots by field number, while reads go by uiBufferIndex. The two agree, for all rows and all
      column lists, exactly when each field's buffer position is its own number or lies beyond all the fields: columns
      hidden from the program must not come before a field that is read by position. */
  lemma FetchesOwnColumnsExactly(index: seq<nat>, columns: nat)
    requires Injective(index, columns)
    ensures FetchesOwnColumns(index, columns) <==> Aligned(index)
  {
    if !Aligned(index) {
      var f :| 0 <= f < |index| && index[f] != f && index[f] < |index|;
      var row := seq(columns, c requires 0 <= c < columns => c);
      var marks := seq(|index|, i => true);
      var record := FetchedRecord(row, index, marks, true);
      assert record[index[f]] == Value(index[index[f]]);
      assert !OwnColumn(record, row, index[f]);
    }
  }

  // ---------------------------------------------------------------- the buffer

  function ByField(row: seq<int>, index: seq<nat>): (r: seq<int>)
    ensures |r| == |index|
  {
    seq(|index|, f requires 0 <= f < |index| => if index[f] < |row| then row[index[f]] else 0)
  }

  function TableByField(table: map<nat, seq<int>>, index: seq<nat>): map<nat, seq<int>>
  {
    map r | r in table :: ByField(table[r], index)
  }

  /** Row `r` is one of the first `n` of `list`, and the table has it. */
  predicate Requested(table: map<nat, seq<int>>, list: seq<nat>, n: nat, r: nat)
  {
    r in table && r in if n < |list| then list[..n] else list
  }

  ghost predicate AnyRequested(table: map<nat, seq<int>>, list: seq<nat>, n: nat)
  {
    exists r :: Requested(table, list, n, r)
  }

  lemma AnyRow(table: map<nat, seq<int>>, list: seq<nat>, n: nat, rows: set<nat>)
    requires forall r :: r in rows <==> Requested(table, list, n, r)
    ensures rows != {} <==> AnyRequested(table, list, n)
  {
    if rows != {} {
      var r :| r in rows;
      assert Requested(table, list, n, r);
    }
  }

  /** The row after an UPDATE of the edited columns from the buffer. */
  function Edited(row: seq<int>, buffer: seq<Item>, mask: seq<bool>): (r: seq<int>)
    requires |row| == |buffer| == |mask|
    ensures |r| == |row|
  {
    seq(|row|, c requires 0 <= c < |row| => if mask[c] && buffer[c].Value? then buffer[c].v else row[c])
  }

  lemma UpdatedTable(table: map<nat, seq<int>>, r: nat, row: seq<int>, index: seq<nat>)
    ensures TableByField(table[r := row], index) == TableByField(table, index)[r := ByField(row, index)]
  {
  }

  /** What a buffer of a record shows: the columns it holds, and those of the row where it holds none. */
  function ShownRecord(row: seq<int>, buffer: seq<Item>, index: seq<nat>): seq<int>
  {
    seq(|index|, f requires 0 <= f < |index| =>
      if index[f] < |buffer| && buffer[index[f]].Value? then buffer[index[f]].v else ByField(row, index)[f])
  }

  /** Writing the edited columns makes the row what the buffer shows. */
  lemma EditedShows(row: seq<int>, buffer: seq<Item>, mask: seq<bool>, index: seq<nat>)
    requires |row| == |buffer| == |mask| && Injective(index, |row|)
    requires forall c :: 0 <= c < |mask| && mask[c] ==> buffer[c] != Nil
    requires forall f :: 0 <= f < |index| && !mask[index[f]] ==> OwnColumn(buffer, row, index[f])
    ensures Coherent(buffer, Edited(row, buffer, mask), index)
    ensures ByField(Edited(row, buffer, mask), index) == ShownRecord(row, buffer, index)
         == ShownRecord(Edited(row, buffer, mask), buffer, index)
  {
  }

  /** Edits that are written to a row change nothing exactly when they repeat its values. */
  lemma EditedKeepsExactly(row: seq<int>, buffer: seq<Item>, mask: seq<bool>)
    requires |row| == |buffer| == |mask| && forall c :: 0 <= c < |mask| && mask[c] ==> buffer[c] != Nil
    ensures Edited(row, buffer, mask) == row <==> forall c :: 0 <= c < |row| && mask[c] ==> buffer[c] == Value(row[c])
  {
    if Edited(row, buffer, mask) == row {
      forall c | 0 <= c < |row| && mask[c] ensures buffer[c] == Value(row[c]) {
        assert Edited(row, buffer, mask)[c] == buffer[c].v;
      }
    }
  }

  /** The buffer of an edited phantom record is a copy of the row that was written exactly when the columns without edits
      are blank in that row. */
  lemma PhantomCopyExactly(row: seq<int>, empty: seq<int>, buffer: seq<Item>, mask: seq<bool>, index: seq<nat>)
    requires |row| == |empty| == |buffer| == |mask| && Injective(index, |row|)
    requires forall f :: 0 <= f < |index| ==> buffer[index[f]].Value? && (!mask[index[f]] ==> buffer[index[f]].v == empty[index[f]])
    ensures Coherent(buffer, Edited(row, buffer, mask), index)
            <==> forall f :: 0 <= f < |index| && !mask[index[f]] ==> empty[index[f]] == row[index[f]]
  {
    var after := Edited(row, buffer, mask);
    if Coherent(buffer, after, index) {
      forall f | 0 <= f < |index| && !mask[index[f]] ensures empty[index[f]] == row[index[f]] {
        assert OwnColumn(buffer, after, index[f]);
      }
    }
  }

  lemma SameRow(table: map<nat, seq<int>>, r: nat)
    requires r in table
    ensures table[r := table[r]] == table
  {
  }

  ghost predicate Coherent(record: seq<Item>, row: seq<int>, index: seq<nat>)
  {
    forall f :: 0 <= f < |index| ==> OwnColumn(record, row, index[f])
  }

  lemma FetchedIsCoherent(row: seq<int>, index: seq<nat>, marks: seq<bool>, all: bool)
    requires |marks| == |index| && Injective(index, |row|) && Aligned(index)
    ensures Coherent(FetchedRecord(row, index, marks, all), row, index)
  {
    FetchesOwnColumnsExactly(index, |row|);
  }

  lemma {:induction false} FewerThanListed(list: seq<nat>, s: set<nat>)
    requires forall r :: r in s ==> r in list
    ensures |s| <= |list|
    decreases |list|
  {
    if list == [] {
      assert s == {};
    } else {
      FewerThanListed(list[1..], s - {list[0]});
      assert s <= (s - {list[0]}) + {list[0]};
    }
  }

  class SqlExBuffer {
    const columns: nat
    const uiBufferIndex: seq<nat>
    const hasDeleted: bool
    const deletedMark: int
    const aEmptyBuff: seq<int>
    const bufferPoolSize: nat
    const pageReadSize: nat
    const aBuffer: array<Item>
    const uiFieldList: array<bool>
    const editMask: array<bool>
    const lRecordToRetrieve: array<nat>
    /** The database table; the UPDATE of this workarea is the only writer. */
    var table: map<nat, seq<int>>
    var hBufferPool: map<nat, seq<Item>>
    var iColumnListStatus: ListStatus
    var sFields: seq<Column>
    /** The columns of the prepared statement; none while there is no statement. */
    var hStmtBuffer: seq<Column>
    var recno: nat
    var fEof: bool
    var bufferHot: bool

    ghost predicate Shape()
      reads `table
    {
      && Injective(uiBufferIndex, columns) && Aligned(uiBufferIndex)
      && |uiBufferIndex| > 0 && |aEmptyBuff| == columns && pageReadSize > 0
      && lRecordToRetrieve.Length == pageReadSize
      && aBuffer.Length == columns && uiFieldList.Length == |uiBufferIndex| && editMask.Length == columns
      && uiFieldList != editMask
      && 0 !in table && forall r :: r in table ==> |table[r]| == columns
    }

    /** STABLE: the statement asks for exactly the marked fields; LEARNING: for all of them. */
    ghost predicate ListOk()
      requires uiFieldList.Length == |uiBufferIndex|
      reads `iColumnListStatus, `sFields, `hStmtBuffer, uiFieldList
    {
      match iColumnListStatus
      case Learning =>
        && (sFields == [] || sFields == ColumnList(hasDeleted, uiFieldList[..], true))
        && hStmtBuffer == sFields
      case Stable => hStmtBuffer == sFields == ColumnList(hasDeleted, uiFieldList[..], false)
      case _ => exists f :: 0 <= f < |uiBufferIndex| && uiFieldList[f]
    }

    ghost predicate PoolOk()
      reads `table, `hBufferPool
    {
      && |hBufferPool| <= bufferPoolSize + pageReadSize
      && forall r :: r in hBufferPool ==>
           r in table && |hBufferPool[r]| == columns && Coherent(hBufferPool[r], table[r], uiBufferIndex)
    }

    /** Column `c` is the column of a field. */
    ghost predicate IsFieldColumn(c: nat)
    {
      exists f :: 0 <= f < |uiBufferIndex| && uiBufferIndex[f] == c
    }

    ghost predicate NotEdited()
      reads `bufferHot, editMask
    {
      !bufferHot && forall c :: 0 <= c < editMask.Length ==> !editMask[c]
    }

    ghost predicate BufferOk()
      requires Shape()
      reads `table, `recno, `fEof, `bufferHot, aBuffer, editMask
    {
      && (!fEof ==> recno in table)
      && (!bufferHot ==> NotEdited())
      && (forall c :: 0 <= c < columns && editMask[c] ==> IsFieldColumn(c) && aBuffer[c] != Nil)
      && (forall f :: 0 <= f < |uiBufferIndex| && aBuffer[uiBufferIndex[f]] == Nil ==> !fEof)
      && (!fEof ==> forall f :: 0 <= f < |uiBufferIndex| && !editMask[uiBufferIndex[f]] ==>
             OwnColumn(aBuffer[..], table[recno], uiBufferIndex[f]))
    }

    ghost predicate Valid()
      reads this, aBuffer, uiFieldList, editMask
    {
      Shape() && ListOk() && PoolOk() && BufferOk()
    }

    /** What the program is shown in field `f`: what the buffer holds, or what a read would fetch. */
    function Shown(f: nat): int
      requires f < |uiBufferIndex| && uiBufferIndex[f] < aBuffer.Length
      reads `table, `recno, aBuffer
    {
      match aBuffer[uiBufferIndex[f]]
      case Value(v) => v
      case Nil => if recno in table then ByField(table[recno], uiBufferIndex)[f] else 0
    }

    function Record(): (record: seq<int>)
      requires forall f :: 0 <= f < |uiBufferIndex| ==> uiBufferIndex[f] < aBuffer.Length
      reads this, aBuffer
      ensures |record| == |uiBufferIndex|
    {
      seq(|uiBufferIndex|, f requires 0 <= f < |uiBufferIndex| reads this, aBuffer => Shown(f))
    }

    function View(): Plain
      requires forall f :: 0 <= f < |uiBufferIndex| ==> uiBufferIndex[f] < aBuffer.Length
      reads this, aBuffer
    {
      Plain(TableByField(table, uiBufferIndex), ByField(aEmptyBuff, uiBufferIndex), fEof, recno, Record())
    }

    lemma ViewKeys()
      requires Valid()
      ensures View().table.Keys == table.Keys
    {
    }

    lemma ViewEof()
      requires Valid()
      ensures View().eof == fEof
    {
    }

    lemma Widths()
      requires Valid()
      ensures |aBuffer[..]| == |editMask[..]| == columns && forall r :: r in table ==> |table[r]| == columns
      ensures forall c :: 0 <= c < columns && editMask[..][c] ==> aBuffer[..][c] != Nil
    {
    }

    /** A workarea that was just opened; until the first move it shows the phantom record. */
    constructor (rows: map<nat, seq<int>>, width: nat, index: seq<nat>, deleted: bool, mark: int, empty: seq<int>,
                 poolSize: nat, pageSize: nat)
      requires Injective(index, width) && Aligned(index) && index != [] && |empty| == width && pageSize > 0
      requires 0 !in rows && forall r :: r in rows ==> |rows[r]| == width
      ensures Valid() && fresh(aBuffer) && fresh(uiFieldList) && fresh(editMask) && fresh(lRecordToRetrieve)
      ensures table == rows && uiBufferIndex == index && bufferPoolSize == poolSize && pageReadSize == pageSize
      ensures fEof && !bufferHot && hBufferPool == map[] && iColumnListStatus == Learning
      ensures View().record == View().empty == ByField(empty, index)
    {
      columns, uiBufferIndex, hasDeleted, deletedMark := width, index, deleted, mark;
      aEmptyBuff, bufferPoolSize, pageReadSize := empty, poolSize, pageSize;
      aBuffer := new Item[width](c requires 0 <= c < width => Value(if c < |empty| then empty[c] else 0));
      uiFieldList := new bool[|index|](f => false);
      editMask := new bool[width](c => false);
      lRecordToRetrieve := new nat[pageSize];
      table, hBufferPool := rows, map[];
      iColumnListStatus, sFields, hStmtBuffer := Learning, [], [];
      recno, fEof, bufferHot := 0, true, false;
    }

    // -------------------------------------------------------------- the list of columns

    /** Writes the list anew when it has to change; the result says that it did. */
    method GetColumnList() returns (changed: bool)
      requires Shape() && ListOk()
      modifies `iColumnListStatus, `sFields
      ensures changed == (old(iColumnListStatus) in {Changed, NewValueRead} || (old(iColumnListStatus) == Learning && old(sFields) == []))
      ensures iColumnListStatus == if old(iColumnListStatus) == Learning then Learning else Stable
      ensures sFields == ColumnList(hasDeleted, uiFieldList[..], iColumnListStatus == Learning)
    {
      if iColumnListStatus == Learning {
        if sFields == [] {
          WriteList(true);
          return true;
        }
      } else if iColumnListStatus == Changed || iColumnListStatus == NewValueRead {
        WriteList(false);
        iColumnListStatus := Stable;
        return true;
      }
      return false;
    }

    /** The loop over the fields; the first one that is listed is written after a new header. */
    method WriteList(all: bool)
      requires Shape()
      requires all ==> sFields == []
      requires all || exists f :: 0 <= f < |uiBufferIndex| && uiFieldList[f]
      modifies `sFields
      ensures sFields == ColumnList(hasDeleted, uiFieldList[..], all)
    {
      var uiFlds, n := 0, 0;
      while n < |uiBufferIndex|
        invariant n <= |uiBufferIndex| && uiFlds == |Chosen(uiFieldList[..], all, n)|
        invariant uiFlds > 0 ==> sFields == Header(hasDeleted) + Fields(Chosen(uiFieldList[..], all, n))
        invariant uiFlds == 0 ==> sFields == old(sFields) && forall f :: 0 <= f < n ==> !uiFieldList[f]
      {
        if all || uiFieldList[n] {
          if uiFlds == 0 {
            sFields := Header(hasDeleted) + [Field(n)];
          } else {
            sFields := sFields + [Field(n)];
          }
          uiFlds := uiFlds + 1;
        }
        n := n + 1;
      }
    }

    // -------------------------------------------------------------- reading records

    /** Column `n`, counted from 1, of the result row for record `r`. */
    method GetData(r: nat, n: nat) returns (value: int)
      requires Shape() && r in table && 1 <= n <= |hStmtBuffer|
      requires hStmtBuffer[n - 1].Field? ==> hStmtBuffer[n - 1].i < |uiBufferIndex|
      ensures value == match hStmtBuffer[n - 1]
                       case Recno => r
                       case Deleted => deletedMark
                       case Field(i) => table[r][uiBufferIndex[i]]
    {
      match hStmtBuffer[n - 1] {
        case Recno => value := r;
        case Deleted => value := deletedMark;
        case Field(i) => value := table[r][uiBufferIndex[i]];
      }
    }

    /** Reads field after field from the next column of the result; a field that is not asked for stays NIL. */
    method FetchRecord(r: nat) returns (aRecord: seq<Item>)
      requires Shape() && r in table
      requires hStmtBuffer == ColumnList(hasDeleted, uiFieldList[..], iColumnListStatus == Learning)
      ensures aRecord == FetchedRecord(table[r], uiBufferIndex, uiFieldList[..], iColumnListStatus == Learning)
    {
      ghost var marks, all := uiFieldList[..], iColumnListStatus == Learning;
      var iIndex := if hasDeleted then 2 else 1;
      aRecord := seq(columns, _ => Nil);
      var i := 0;
      while i < |uiBufferIndex|
        invariant i <= |uiBufferIndex| && |aRecord| == columns
        invariant iIndex == |Header(hasDeleted)| + |Chosen(marks, all, i)|
        invariant forall c :: 0 <= c < columns ==>
                    aRecord[c] == if c < i && (all || marks[c]) then Value(table[r][uiBufferIndex[c]]) else Nil
      {
        if uiFieldList[i] || iColumnListStatus == Learning {
          FieldIsListed(hasDeleted, marks, all, i);
          iIndex := iIndex + 1;
          var value := GetData(r, iIndex);
          if i < columns { // setting an element past the end of an array has no effect
            aRecord := aRecord[i := Value(value)];
          }
        }
        i := i + 1;
      }
    }

    method SetBindVars(list: seq<nat>) returns (rows: set<nat>)
      requires Shape()
      modifies lRecordToRetrieve
      ensures forall r :: r in rows <==> Requested(table, list, pageReadSize, r)
      ensures |rows| <= pageReadSize
    {
      var i := 0;
      while i < pageReadSize
        invariant i <= pageReadSize
        invariant forall k :: 0 <= k < i ==> lRecordToRetrieve[k] == if k < |list| then list[k] else 0
      {
        lRecordToRetrieve[i] := if i < |list| then list[i] else 0;
        i := i + 1;
      }
      var asked := lRecordToRetrieve[..];
      rows := set r | r in asked && r in table;
      FewerThanListed(asked, rows);
      forall r | Requested(table, list, pageReadSize, r) ensures r in rows {
        var k :| 0 <= k < |list| && k < pageReadSize && list[k] == r;
        assert asked[k] == r;
      }
    }

    method CopyToBuffer(record: seq<Item>)
      requires Shape() && |record| == columns
      modifies aBuffer
      ensures aBuffer[..] == record
    {
      forall c | 0 <= c < columns {
        aBuffer[c] := record[c];
      }
    }

    /** Takes a result row into the pool, and into the buffer when it is the current record. */
    method TakeRow(r: nat, current: nat)
      requires Shape() && r in table
      requires hStmtBuffer == ColumnList(hasDeleted, uiFieldList[..], iColumnListStatus == Learning)
      modifies `hBufferPool, aBuffer
      ensures exists record: seq<Item> :: |record| == columns && Coherent(record, table[r], uiBufferIndex)
                && hBufferPool == old(hBufferPool)[r := record]
                && aBuffer[..] == if r == current then record else old(aBuffer[..])
    {
      var lCurrRecord := GetData(r, 1);
      var aRecord := FetchRecord(r);
      FetchedIsCoherent(table[r], uiBufferIndex, uiFieldList[..], iColumnListStatus == Learning);
      hBufferPool := hBufferPool[lCurrRecord := aRecord];
      if lCurrRecord == current {
        CopyToBuffer(aRecord);
      }
    }

    /** Prepares the statement again when the list of columns has changed. */
    method RefreshStatement()
      requires Shape() && ListOk()
      modifies `iColumnListStatus, `sFields, `hStmtBuffer
      ensures ListOk() && (iColumnListStatus == Learning <==> old(iColumnListStatus) == Learning)
      ensures hStmtBuffer == ColumnList(hasDeleted, uiFieldList[..], iColumnListStatus == Learning)
    {
      var changed := GetColumnList();
      if changed || hStmtBuffer == [] {
        hStmtBuffer := sFields;
      }
    }

    method ReadPage(list: seq<nat>) returns (ok: bool)
      requires Shape() && ListOk() && PoolOk() && list != [] && |hBufferPool| <= bufferPoolSize
      modifies `hBufferPool, `iColumnListStatus, `sFields, `hStmtBuffer, aBuffer, lRecordToRetrieve
      ensures ListOk() && PoolOk() && (iColumnListStatus == Learning <==> old(iColumnListStatus) == Learning)
      ensures ok == AnyRequested(table, list, pageReadSize)
      ensures list[0] in table ==> Coherent(aBuffer[..], table[list[0]], uiBufferIndex)
      ensures list[0] !in table ==> aBuffer[..] == old(aBuffer[..])
    {
      RefreshStatement();
      var rows := SetBindVars(list);
      ok := rows != {};
      AnyRow(table, list, pageReadSize, rows);
      assert list[0] in table ==> Requested(table, list, pageReadSize, list[0]);
      FetchPage(rows, list[0]);
    }

    /** Reads the current record, the first of `list`, from the pool or with a page of records from the table. */
    method UpdateRecordBuffer(list: seq<nat>, bUpdateDeleted: bool) returns (ok: bool)
      requires Shape() && ListOk() && PoolOk() && list != []
      modifies `hBufferPool, `iColumnListStatus, `sFields, `hStmtBuffer, aBuffer, lRecordToRetrieve
      ensures ListOk() && PoolOk() && (iColumnListStatus == Learning <==> old(iColumnListStatus) == Learning)
      ensures ok == ((!bUpdateDeleted && list[0] in old(hBufferPool)) || AnyRequested(table, list, pageReadSize))
      ensures list[0] in table ==> ok && Coherent(aBuffer[..], table[list[0]], uiBufferIndex)
      ensures list[0] !in table ==> aBuffer[..] == old(aBuffer[..])
    {
      if !bUpdateDeleted && list[0] in hBufferPool {
        CopyToBuffer(hBufferPool[list[0]]);
        return true;
      }
      if |hBufferPool| > bufferPoolSize {
        hBufferPool := map[];
      }
      ok := ReadPage(list);
      assert list[0] in table ==> Requested(table, list, pageReadSize, list[0]);
    }

    /** Fetches the rows of the page, in whatever order the database returns them. */
    method FetchPage(rows: set<nat>, current: nat)
      requires Shape() && PoolOk() && |hBufferPool| <= bufferPoolSize && |rows| <= pageReadSize
      requires forall r :: r in rows ==> r in table
      requires hStmtBuffer == ColumnList(hasDeleted, uiFieldList[..], iColumnListStatus == Learning)
      modifies `hBufferPool, aBuffer
      ensures PoolOk()
      ensures current in rows ==> Coherent(aBuffer[..], table[current], uiBufferIndex)
      ensures current !in rows ==> aBuffer[..] == old(aBuffer[..])
    {
      var left, iRow := rows, 1;
      while iRow <= pageReadSize
        invariant 1 <= iRow <= pageReadSize + 1 && |left| <= pageReadSize + 1 - iRow && left <= rows
        invariant PoolOk() && |hBufferPool| < bufferPoolSize + iRow
        invariant current in rows && current !in left ==> Coherent(aBuffer[..], table[current], uiBufferIndex)
        invariant current !in rows ==> aBuffer[..] == old(aBuffer[..])
      {
        if left == {} {
          break;
        }
        var r :| r in left;
        left := left - {r};
        TakeRow(r, current);
        iRow := iRow + 1;
      }
    }

    // -------------------------------------------------------------- what the program calls

    /** The phantom record: every column is there, and blank. */
    method GetCleanBuffer()
      requires Shape()
      modifies `fEof, aBuffer
      ensures fEof && forall c :: 0 <= c < columns ==> aBuffer[c] == Value(aEmptyBuff[c])
    {
      var nPos := 0;
      while nPos < columns
        invariant nPos <= columns
        invariant forall c :: 0 <= c < nPos ==> aBuffer[c] == Value(aEmptyBuff[c])
      {
        aBuffer[nPos] := Value(aEmptyBuff[nPos]);
        nPos := nPos + 1;
      }
      fEof := true;
    }

    method MarkField(f: nat)
      requires Shape() && ListOk() && f < |uiBufferIndex|
      modifies `iColumnListStatus, uiFieldList
      ensures ListOk() && (iColumnListStatus == Learning ==> old(iColumnListStatus) == Learning)
      ensures uiFieldList[..] == old(uiFieldList[..])[f := true]
      ensures iColumnListStatus == if old(uiFieldList[f]) then old(iColumnListStatus) else NewValueRead
    {
      if !uiFieldList[f] {
        uiFieldList[f] := true;
        iColumnListStatus := NewValueRead;
      }
      assert uiFieldList[..] == old(uiFieldList[..]) || uiFieldList[f];
    }

    /** Reads the column of field `f` from the table when the buffer does not have it. */
    method GetMissingColumn(f: nat)
      requires Valid() && f < |uiBufferIndex|
      modifies aBuffer
      ensures Valid() && View() == old(View())
      ensures aBuffer[uiBufferIndex[f]] == Value(View().record[f])
    {
      var c := uiBufferIndex[f];
      if aBuffer[c] == Nil {
        aBuffer[c] := Value(table[recno][c]);
      }
    }

    method GetValue(f: nat) returns (value: int)
      requires Valid() && f < |uiBufferIndex|
      modifies `iColumnListStatus, uiFieldList, aBuffer
      ensures Valid() && View() == old(View()) && value == View().record[f]
      ensures iColumnListStatus == Learning ==> old(iColumnListStatus) == Learning
      ensures uiFieldList[..] == old(uiFieldList[..])[f := true]
      ensures iColumnListStatus == if old(uiFieldList[f]) then old(iColumnListStatus) else NewValueRead
    {
      GetMissingColumn(f);
      value := aBuffer[uiBufferIndex[f]].v;
      MarkField(f);
    }

    method StoreField(f: nat, v: int)
      requires Shape() && BufferOk() && f < |uiBufferIndex|
      modifies `bufferHot, editMask, aBuffer
      ensures BufferOk() && Record() == old(Record())[f := v]
    {
      assert IsFieldColumn(uiBufferIndex[f]);
      editMask[uiBufferIndex[f]] := true;
      aBuffer[uiBufferIndex[f]] := Value(v);
      bufferHot := true;
    }

    method PutValue(f: nat, v: int)
      requires Valid() && f < |uiBufferIndex|
      modifies `iColumnListStatus, `bufferHot, uiFieldList, editMask, aBuffer
      ensures Valid() && View() == old(View()).(record := old(View()).record[f := v])
      ensures iColumnListStatus == Learning ==> old(iColumnListStatus) == Learning
      ensures uiFieldList[..] == old(uiFieldList[..])[f := true]
      ensures iColumnListStatus == if old(uiFieldList[f]) then old(iColumnListStatus) else NewValueRead
    {
      MarkField(f);
      StoreField(f, v);
    }

    /** The UPDATE, and the pool's copy of the record. Columns that are not of a field keep their values. */
    method ExecuteUpdateStmt()
      requires Shape() && PoolOk() && BufferOk() && !fEof
      modifies `table, `hBufferPool
      ensures Shape() && PoolOk()
      ensures table.Keys == old(table.Keys) && forall r :: r in table && r != recno ==> table[r] == old(table[r])
      ensures forall c :: 0 <= c < columns && !editMask[c] ==> table[recno][c] == old(table[recno][c])
      ensures Coherent(aBuffer[..], table[recno], uiBufferIndex)
      ensures ByField(table[recno], uiBufferIndex) == Record() == old(Record())
      ensures TableByField(table, uiBufferIndex) == old(TableByField(table, uiBufferIndex))[recno := old(Record())]
    {
      var row := Edited(table[recno], aBuffer[..], editMask[..]);
      EditedShows(table[recno], aBuffer[..], editMask[..], uiBufferIndex);
      assert Record() == ShownRecord(table[recno], aBuffer[..], uiBufferIndex);
      UpdatedTable(table, recno, row, uiBufferIndex);
      table := table[recno := row];
      if recno in hBufferPool {
        hBufferPool := hBufferPool[recno := aBuffer[..]];
      }
      assert Record() == ShownRecord(row, aBuffer[..], uiBufferIndex);
    }

    method ClearEditMask()
      requires Shape()
      modifies editMask
      ensures forall c :: 0 <= c < columns ==> !editMask[c]
    {
      forall c | 0 <= c < columns {
        editMask[c] := false;
      }
    }

    /** Without edits the record that is shown is the one in the table. */
    lemma NothingToWrite()
      requires Shape() && BufferOk() && NotEdited() && !fEof
      ensures Record() == ByField(table[recno], uiBufferIndex)
      ensures TableByField(table, uiBufferIndex)[recno := Record()] == TableByField(table, uiBufferIndex)
    {
      SameRow(table, recno);
      UpdatedTable(table, recno, table[recno], uiBufferIndex);
    }

    method ForgetEdits()
      requires Shape()
      requires forall f :: 0 <= f < |uiBufferIndex| && aBuffer[uiBufferIndex[f]] == Nil ==> !fEof
      requires !fEof ==> recno in table && Coherent(aBuffer[..], table[recno], uiBufferIndex)
      modifies `bufferHot, editMask
      ensures BufferOk() && NotEdited() && Record() == old(Record())
    {
      bufferHot := false;
      ClearEditMask();
    }

    /** Writes the edited record; edits of the phantom record are dropped. */
    method WriteEdits()
      requires Valid() && bufferHot
      modifies `table, `hBufferPool, `bufferHot, editMask
      ensures Valid() && NotEdited() && table.Keys == old(table.Keys) && Record() == old(Record())
      ensures TableByField(table, uiBufferIndex) == PlainFlush(old(View())).table
    {
      if !fEof {
        ExecuteUpdateStmt();
      }
      ForgetEdits();
    }

    method GoCold()
      requires Valid()
      modifies `table, `hBufferPool, `bufferHot, editMask
      ensures Valid() && NotEdited() && View() == PlainFlush(old(View()))
      ensures table.Keys == old(table.Keys)
    {
      if bufferHot {
        WriteEdits();
      } else {
        if !fEof { NothingToWrite(); }
        ClearEditMask();
      }
    }

    /** GOCOLD as a skip calls it: EOF is off already, so edits of the phantom record are not dropped. They are written
        to record `r`, where the list of the workarea stands, and the pool's copy of it becomes the edited blank one. */
    method GoColdInSkip(r: nat)
      requires Valid() && (fEof || r == recno)
      modifies `table, `hBufferPool, `bufferHot, editMask
      ensures !bufferHot && aBuffer[..] == old(aBuffer[..]) && table.Keys == old(table.Keys)
      ensures !old(fEof && bufferHot) ==> Valid() && View() == PlainFlush(old(View()))
      ensures old(fEof && bufferHot) ==>
                table == (if r in table then old(table)[r := Edited(old(table)[r], aBuffer[..], old(editMask[..]))] else old(table))
      ensures old(fEof && bufferHot) ==>
                hBufferPool == if r in old(hBufferPool) then old(hBufferPool)[r := aBuffer[..]] else old(hBufferPool)
    {
      if bufferHot && fEof {
        if r in table {
          table := table[r := Edited(table[r], aBuffer[..], editMask[..])];
        }
        if r in hBufferPool {
          hBufferPool := hBufferPool[r := aBuffer[..]];
        }
        bufferHot := false;
        ClearEditMask();
      } else {
        GoCold();
      }
    }

    /** The phantom record, shown after everything was written. */
    method ShowPhantom()
      requires Shape() && ListOk() && PoolOk() && NotEdited()
      modifies `fEof, aBuffer
      ensures Valid() && View() == old(View()).(eof := true, record := old(View()).empty)
    {
      GetCleanBuffer();
    }

    method ToPhantom()
      requires Valid()
      modifies this, aBuffer, editMask
      ensures Valid() && View() == PlainPhantom(old(View())) && !bufferHot
      ensures iColumnListStatus == old(iColumnListStatus) && table.Keys == old(table.Keys)
    {
      GoCold();
      ShowPhantom();
    }

    /** The buffer holds record `r`, as far as it was read. */
    method ShowRecord(r: nat)
      requires Shape() && ListOk() && PoolOk() && NotEdited() && r in table
      requires Coherent(aBuffer[..], table[r], uiBufferIndex)
      modifies `fEof, `recno
      ensures Valid() && fEof == false && recno == r
      ensures Record() == ByField(table[r], uiBufferIndex)
    {
      recno, fEof := r, false;
    }

    /** Reads and shows the first record of `list`. The other records of a longer list are in the table too. */
    method Land(list: seq<nat>, again: bool)
      requires Shape() && ListOk() && PoolOk() && NotEdited() && list != []
      requires |list| == 1 || forall r :: r in list ==> r in table
      modifies `recno, `fEof, `hBufferPool, `iColumnListStatus, `sFields, `hStmtBuffer, aBuffer, lRecordToRetrieve
      ensures Valid() && (iColumnListStatus == Learning <==> old(iColumnListStatus) == Learning)
      ensures fEof == (list[0] !in table) && recno == if fEof then old(recno) else list[0]
      ensures Record() == ByField(if fEof then aEmptyBuff else table[recno], uiBufferIndex)
    {
      var ok := UpdateRecordBuffer(list, again);
      if ok {
        assert list[0] in table;
        ShowRecord(list[0]);
      } else {
        ShowPhantom();
      }
    }

    /** A move to the first record of `list`: the record list from its position on. */
    method MoveTo(list: seq<nat>, again: bool)
      requires Valid() && list != []
      requires |list| == 1 || forall r :: r in list ==> r in table
      modifies this, aBuffer, editMask, lRecordToRetrieve
      ensures Valid() && View() == PlainMove(old(View()), list[0]) && !bufferHot
      ensures iColumnListStatus == Learning <==> old(iColumnListStatus) == Learning
      ensures table.Keys == old(table.Keys)
    {
      GoCold();
      Land(list, again);
    }

    /** One call of the program; a read gives one value. */
    method Perform(op: Op) returns (seen: seq<int>)
      requires Valid() && Proper(op, |uiBufferIndex|, table.Keys)
      modifies this, aBuffer, uiFieldList, editMask, lRecordToRetrieve
      ensures Valid() && View() == PlainDo(old(View()), op) && table.Keys == old(table.Keys)
      ensures seen == if op.Read? then [old(View()).record[op.f]] else []
      ensures iColumnListStatus == Learning ==> old(iColumnListStatus) == Learning
    {
      seen := [];
      match op {
        case Read(f) =>
          var value := GetValue(f);
          seen := [value];
        case Write(f, v) => PutValue(f, v);
        case MoveTo(list, again) => MoveTo(list, again);
        case ToPhantom => ToPhantom();
        case Flush => GoCold();
      }
    }

    /** Whatever a program reads, writes, moves and flushes, it reads what a buffer without pool and column list would
        show; and the pool stays within its bound (PoolOk). */
    method PerformAll(ops: seq<Op>) returns (seen: seq<int>)
      requires Valid() && forall i :: 0 <= i < |ops| ==> Proper(ops[i], |uiBufferIndex|, table.Keys)
      modifies this, aBuffer, uiFieldList, editMask, lRecordToRetrieve
      ensures Valid() && seen == PlainRun(old(View()), ops)
      ensures |hBufferPool| <= bufferPoolSize + pageReadSize
      ensures iColumnListStatus == Learning ==> old(iColumnListStatus) == Learning
    {
      ghost var all := PlainRun(View(), ops);
      seen := [];
      var i := 0;
      while i < |ops|
        invariant i <= |ops| && Valid() && table.Keys == old(table.Keys)
        invariant seen + PlainRun(View(), ops[i..]) == all
        invariant iColumnListStatus == Learning ==> old(iColumnListStatus) == Learning
      {
        ghost var p := View();
        var s := Perform(ops[i]);
        PlainRunStep(all, seen, p, ops, i, s);
        seen := seen + s;
        i := i + 1;
      }
    }
  }

  /** A call that names a field of the workarea and moves only to lists the navigation makes. */
  predicate Proper(op: Op, fields: nat, recnos: set<nat>)
  {
    match op
    case Read(f) => f < fields
    case Write(f, v) => f < fields
    case MoveTo(list, again) => list != [] && (|list| == 1 || forall r :: r in list ==> r in recnos)
    case _ => true
  }

  lemma PlainRunStep(all: seq<int>, seen: seq<int>, p: Plain, ops: seq<Op>, i: nat, s: seq<int>)
    requires i < |ops| && seen + PlainRun(p, ops[i..]) == all
    requires s == if ops[i].Read? && ops[i].f < |p.record| then [p.record[ops[i].f]] else []
    ensures seen + s + PlainRun(PlainDo(p, ops[i]), ops[i + 1..]) == all
  {
    assert ops[i..][1..] == ops[i + 1..];
  }
}
