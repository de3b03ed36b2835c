/** SQLEX navigation as functions on the state of a workarea: a window of record numbers over
    an ordered table, two hints for its ends, and the moves that read the window or refill it.
    WorkArea.dfy has the statements that change the fields; its methods compute these functions.
 */
module Cursor {
  import opened IndexOrder
  import opened Dialects

  const RECORD_LIST_SIZE: nat := 250
  const EDGE_LIST_SIZE: nat := RECORD_LIST_SIZE / 10

  datatype Direction = Forward | Backward

  /** Where the index column values bound to a skip come from: the record number (natural order),
      the record buffer, or, for a column that is not kept in the buffer, a query of its own. */
  datatype KeySource = Natural | Buffered | Synthetic

  /** The database table behind a workarea: its rows by record number, and listed in the order they are stored;
      the columns of the controlling index and its direction, now and before the last change of order;
      and the record count and the empty key that the workarea has for its phantom record. */
  datatype Table = Table(
    rows: map<nat, Key>,
    data: seq<Row>,
    columns: nat,
    reverse: bool,
    reverseBefore: bool,
    source: KeySource,
    db: Rdbms,
    recCount: nat,
    emptyKey: Key)

  /** recordList with its unused slots, recordListSize, recordListPos and recordListDirection. */
  datatype RecordList = RecordList(slots: seq<nat>, size: nat, pos: nat, direction: Direction)

  datatype Hints = Hints(lBofAt: nat, lEofAt: nat)

  /** `clean` says that the record buffer holds the empty record, `ok` is the return code of the last call. */
  datatype Flags = Flags(fBof: bool, fEof: bool, clean: bool, firstinteract: bool, ok: bool, lLastRec: nat)

  /** Whether the order has changed since statements were prepared, and for which direction they are. */
  datatype Statements = Statements(orderChanged: bool, forward: bool, backward: bool)

  /** The fields of SQLEXAREA that navigation reads and writes. */
  datatype Area = Area(list: RecordList, hints: Hints, flags: Flags, stmts: Statements, lCurrentRecord: nat)

  predicate Shape(l: RecordList)
  {
    |l.slots| == RECORD_LIST_SIZE && l.pos < RECORD_LIST_SIZE && l.size <= RECORD_LIST_SIZE
  }

  ghost predicate Listed(t: Table)
  {
    && (forall i :: 0 <= i < |t.data| ==> t.data[i].recno in t.rows && t.rows[t.data[i].recno] == t.data[i].key)
    && (forall r :: r in t.rows ==> Row(r, t.rows[r]) in t.data)
  }

  ghost predicate TableOk(t: Table)
  {
    && t.columns >= 1
    && Indexable(t.data, t.columns)
    && |t.emptyKey| == t.columns
    && Listed(t)
    && (forall i :: 0 <= i < |t.data| ==> 1 <= t.data[i].recno <= t.recCount)
    && (t.source == Natural ==>
          t.columns == 1 && forall i :: 0 <= i < |t.data| ==> t.data[i].key == [t.data[i].recno])
  }

  function Opposite(d: Direction): Direction
  {
    if d == Forward then Backward else Forward
  }

  predicate Ascending(t: Table, d: Direction)
  {
    (d == Forward) != t.reverse
  }

  /** The rows in the order in which direction `d` visits them. */
  function Visits(t: Table, d: Direction): seq<Row>
  {
    OrderBy(t.data, Ascending(t, d))
  }

  /** The rows in the order of the index: upwards by their keys, and downwards when the index is reversed. Direction
      Forward visits them in this order. */
  function IndexRows(t: Table): (rows: seq<Row>)
    ensures rows == Visits(t, Forward)
  {
    OrderBy(t.data, !t.reverse)
  }

  predicate Exists(t: Table, recno: nat)
  {
    recno in t.rows
  }

  function Min(a: nat, b: nat): nat
  {
    if a < b then a else b
  }

  function Recnos(rows: seq<Row>): (r: seq<nat>)
    ensures |r| == |rows|
    ensures forall i :: 0 <= i < |r| ==> r[i] == rows[i].recno
  {
    seq(|rows|, i requires 0 <= i < |rows| => rows[i].recno)
  }

  // ---------------------------------------------------------------- the record list

  /** A slot of the record list; the moves never read outside of it. */
  function Slot(l: RecordList, i: nat): nat
  {
    if i < |l.slots| then l.slots[i] else 0
  }

  function Here(l: RecordList): nat
  {
    Slot(l, l.pos)
  }

  function Window(l: RecordList): seq<nat>
  {
    if l.size <= |l.slots| then l.slots[..l.size] else l.slots
  }

  /** `slots` with `front` written over the first of them. */
  function Overwrite(slots: seq<nat>, front: seq<nat>): seq<nat>
  {
    if |front| <= |slots| then front + slots[|front|..] else slots
  }

  function StoreRows(l: RecordList, recnos: seq<nat>): RecordList
  {
    RecordList(Overwrite(l.slots, recnos), |recnos|, 0, l.direction)
  }

  /** The list that GoTo starts when the record is not in the window. */
  function SingleRecord(l: RecordList, recno: nat): RecordList
  {
    RecordList(Overwrite(l.slots, [recno]), 1, 0, Forward)
  }

  /** The first position of `recno`; the length of the list when there is none. */
  function ListIndex(list: seq<nat>, recno: nat): (i: nat)
    ensures i <= |list|
    ensures i < |list| ==> list[i] == recno
  {
    if list == [] then 0 else if list[0] == recno then 0 else 1 + ListIndex(list[1..], recno)
  }

  // ---------------------------------------------------------------- the hints

  /** The hint for the last row that direction `d` visits. */
  function Hint(h: Hints, d: Direction): nat
  {
    if d == Forward then h.lEofAt else h.lBofAt
  }

  function SetHint(h: Hints, d: Direction, recno: nat): Hints
  {
    if d == Forward then Hints(h.lBofAt, recno) else Hints(recno, h.lEofAt)
  }

  // ---------------------------------------------------------------- the moves

  function CurrentRecordNum(a: Area): nat
  {
    if a.flags.fEof then a.flags.lLastRec else Here(a.list)
  }

  function Phantom(t: Table, g: Flags, bof: bool): Flags
  {
    Flags(bof, true, true, g.firstinteract, g.ok, t.recCount + 1)
  }

  function CleanBuffer(t: Table, a: Area): Area
  {
    a.(flags := Phantom(t, a.flags, a.flags.fBof))
  }

  /** The flags after the record buffer was read for a move that lands on a row. */
  function Landing(g: Flags): Flags
  {
    Flags(false, false, false, false, true, g.lLastRec)
  }

  /** Reading the current row into the record buffer; it fails when the table does not have the row. */
  function LoadBuffer(t: Table, a: Area): Area
  {
    if Exists(t, Here(a.list)) then a.(flags := a.flags.(clean := false, ok := true))
    else a.(flags := a.flags.(ok := false))
  }

  /** The fetch loops: up to `max` rows go to the front of the list. When the rows run out before that and
      `atEnd` says that they run to the end of the table, the last one is remembered as that end. */
  function StorePage(a: Area, rows: seq<Row>, max: nat, atEnd: bool): Area
  {
    var n := Min(max, |rows|);
    if n == 0 then a
    else a.(list := StoreRows(a.list, Recnos(rows[..n])),
            hints := if n < max && atEnd then SetHint(a.hints, a.list.direction, rows[n - 1].recno) else a.hints)
  }

  function EdgePage(t: Table, d: Direction): seq<Row>
  {
    Select(t.data, Everything, Ascending(t, d), ResultSetLimit(t.db, EDGE_LIST_SIZE))
  }

  /** The query of GoTop (Forward) and GoBottom (Backward). */
  function FillFromEdge(t: Table, a: Area, d: Direction): Area
  {
    StorePage(a.(list := a.list.(direction := d)), EdgePage(t, d), EDGE_LIST_SIZE, true)
  }

  function GoTo(t: Table, a: Area, recno: nat): Area
  {
    if recno == 0 then
      a.(flags := Phantom(t, Landing(a.flags), true))
    else if !Exists(t, recno) then
      a.(list := SingleRecord(a.list, recno), flags := Phantom(t, Landing(a.flags), true))
    else
      a.(list := GoToList(a.list, recno), flags := Landing(a.flags))
  }

  function GoToList(l: RecordList, recno: nat): RecordList
  {
    if ListIndex(Window(l), recno) < |Window(l)| then l.(pos := ListIndex(Window(l), recno))
    else SingleRecord(l, recno)
  }

  /** The list after an UPDATE that wrote an index column: the current record alone. */
  function Collapsed(l: RecordList): RecordList
  {
    RecordList(Overwrite(l.slots, [Here(l)]), 1, 0, l.direction)
  }

  /** GoTop visits the first row in direction Forward, GoBottom the first in direction Backward. */
  function GoEdge(t: Table, a: Area, d: Direction): Area
  {
    LandOnEdge(t, EdgeWindow(t, a, d), d)
  }

  /** The window for an end: the one a hint leads to, or the answer of a query. */
  function EdgeWindow(t: Table, a: Area, d: Direction): Area
  {
    if Hint(a.hints, Opposite(d)) == 0 then FillFromEdge(t, a, d)
    else if t.reverse != t.reverseBefore then FillFromEdge(t, GoTo(t, a, Hint(a.hints, Opposite(d))), d)
    else GoTo(t, a, Hint(a.hints, Opposite(d)))
  }

  function LandOnEdge(t: Table, a: Area, d: Direction): Area
  {
    if a.list.size == 0 then a.(flags := Phantom(t, Landing(a.flags), true))
    else
      a.(hints := SetHint(a.hints, Opposite(d), Here(a.list)),
         flags := Landing(a.flags).(clean := !Exists(t, Here(a.list)) && a.flags.clean, ok := Exists(t, Here(a.list))))
  }

  /** Running into the end of the order: the phantom record after it, BOF before it. */
  function RunOut(t: Table, a: Area, q: Direction): Area
  {
    if q == Forward then CleanBuffer(t, a) else a.(flags := a.flags.(fBof := true))
  }

  function Supposed(l: RecordList, q: Direction): int
  {
    if l.direction == q then l.pos + 1 else l.pos - 1
  }

  /** Moving inside the window, or past an end that a hint knows. The first component says whether that worked. */
  function SkipOnCache(t: Table, a: Area, q: Direction): (bool, Area)
  {
    var supposed := Supposed(a.list, q);
    if 0 <= supposed < a.list.size then
      (Exists(t, Slot(a.list, supposed)), LoadBuffer(t, a.(list := a.list.(pos := supposed))))
    else if Slot(a.list, if supposed < 0 then 0 else a.list.pos) == Hint(a.hints, q) then
      (true, RunOut(t, a, q))
    else (false, a)
  }

  predicate MustPrepare(s: Statements, q: Direction)
  {
    s.orderChanged || !(if q == Forward then s.forward else s.backward)
  }

  /** Preparing the statements of direction `q` drops those of the other direction and both hints. */
  function Prepare(a: Area, q: Direction): Area
  {
    if MustPrepare(a.stmts, q) then
      a.(hints := Hints(0, 0), stmts := Statements(false, q == Forward, q == Backward))
    else a
  }

  /** The key bound to the statement. */
  function BoundKey(t: Table, a: Area): Key
  {
    if t.source == Natural then [CurrentRecordNum(a)]
    else if !Exists(t, Here(a.list)) || (t.source == Buffered && a.flags.clean) then t.emptyKey
    else t.rows[Here(a.list)]
  }

  /** Asking the database for a column that is not in the buffer takes the current record number again. */
  function Feed(t: Table, a: Area): Area
  {
    if t.source == Synthetic then a.(lCurrentRecord := CurrentRecordNum(a)) else a
  }

  /** No row was left: the position becomes the end of the order. */
  function NoMoreRows(t: Table, a: Area, q: Direction): Area
  {
    if q == Forward then a.(flags := Phantom(t, a.flags, a.flags.fBof).(ok := true))
    else
      a.(flags := a.flags.(fBof := true, ok := true),
         hints := if a.list.size > 0 then Hints(Here(a.list), a.hints.lEofAt) else a.hints)
  }

  /** The rows that the executed statement, always the one of level 1, answers with. */
  function SkipPage(t: Table, q: Direction, key: Key): seq<Row>
  {
    Select(t.data, SkipWhere(1, Ascending(t, q), key), Ascending(t, q), ResultSetLimit(t.db, RECORD_LIST_SIZE))
  }

  function Refill(t: Table, a: Area, q: Direction): Area
  {
    ReadOn(t, Feed(t, Prepare(a.(list := a.list.(direction := q)), q)), q)
  }

  function ReadOn(t: Table, a: Area, q: Direction): Area
  {
    ReadPage(t, a, q, SkipPage(t, q, BoundKey(t, a)))
  }

  /** The rows up to and including the current one are fetched and dropped, the others become the window. */
  function ReadPage(t: Table, a: Area, q: Direction, page: seq<Row>): Area
  {
    var current := RowIndex(page, a.lCurrentRecord);
    if current == |page| then RowIsGone(t, a, q)
    else if current + 1 == |page| then PageIsEmpty(t, a, q)
    else LoadBuffer(t, StorePage(a, page[current + 1..], RECORD_LIST_SIZE, t.columns == 1))
  }

  function RowIsGone(t: Table, a: Area, q: Direction): Area
  {
    NoMoreRows(t, if q == Forward then a else GoEdge(t, a, Forward), q)
  }

  function PageIsEmpty(t: Table, a: Area, q: Direction): Area
  {
    NoMoreRows(t, if a.list.size > 0 then a.(hints := SetHint(a.hints, q, Here(a.list))) else a, q)
  }

  function SkipRaw(t: Table, a: Area, q: Direction): Area
  {
    if q == Backward && a.lCurrentRecord == a.flags.lLastRec then GoEdge(t, a, Backward)
    else if SkipOnCache(t, a, q).0 then SkipOnCache(t, a, q).1
    else Refill(t, SkipOnCache(t, a, q).1, q)
  }

  /** The loop of a skip stops where a step fails or runs out. */
  predicate Stops(a: Area)
  {
    !a.flags.ok || a.flags.fBof || a.flags.fEof
  }

  function Repeat(step: Area -> Area, a: Area, steps: nat): Area
    decreases steps
  {
    if steps == 0 then a
    else if Stops(step(a)) then step(a)
    else Repeat(step, step(a), steps - 1)
  }

  function Step(t: Table, q: Direction): Area -> Area
  {
    a => SkipRaw(t, a, q)
  }

  function SkipLoop(t: Table, a: Area, q: Direction, steps: nat): Area
  {
    Repeat(Step(t, q), a, steps)
  }

  /** The state in which the steps of a skip start; the current record number is taken here, once. */
  function SkipStart(a: Area): Area
  {
    a.(lCurrentRecord := CurrentRecordNum(a), flags := a.flags.(fBof := false, fEof := false, ok := true))
  }

  function SkipEnd(a: Area, q: Direction): Area
  {
    if !a.flags.ok then a
    else if q == Forward then a.(flags := a.flags.(fBof := false))
    else a.(flags := a.flags.(fEof := false))
  }

  function Skip(t: Table, a: Area, n: int): Area
  {
    SkipFrom(t, if a.flags.firstinteract then GoEdge(t, a, Forward) else a, n)
  }

  function SkipFrom(t: Table, a: Area, n: int): Area
  {
    if n == 0 then a.(flags := a.flags.(ok := true))
    else if n > 0 then SkipEnd(SkipLoop(t, SkipStart(a), Forward, n), Forward)
    else SkipEnd(SkipLoop(t, SkipStart(a), Backward, -n), Backward)
  }

  // ---------------------------------------------------------------- runs

  datatype Move = GoTop | GoBottom | GoToRecord(recno: nat) | SkipBy(n: int)

  datatype Seen = Seen(recno: nat, bof: bool, eof: bool, ok: bool)

  function Do(t: Table, a: Area, m: Move): Area
  {
    match m
    case GoTop => GoEdge(t, a, Forward)
    case GoBottom => GoEdge(t, a, Backward)
    case GoToRecord(recno) => GoTo(t, a, recno)
    case SkipBy(n) => Skip(t, a, n)
  }

  function Look(a: Area): Seen
  {
    Seen(CurrentRecordNum(a), a.flags.fBof, a.flags.fEof, a.flags.ok)
  }

  /** What a program sees after each move of a run. */
  function Run(t: Table, a: Area, moves: seq<Move>): (seen: seq<Seen>)
    ensures |seen| == |moves|
    decreases |moves|
  {
    if moves == [] then []
    else [Look(Do(t, a, moves[0]))] + Run(t, Do(t, a, moves[0]), moves[1..])
  }

  /** A workarea as sqlExNewArea and sqlExOpen leave it. */
  predicate Opened(a: Area)
  {
    && |a.list.slots| == RECORD_LIST_SIZE && a.list.size == 0 && a.list.pos == 0
    && a.hints == Hints(0, 0)
    && a.flags == Flags(false, false, a.flags.clean, true, a.flags.ok, 0)
    && a.stmts == Statements(true, false, false)
  }
}
