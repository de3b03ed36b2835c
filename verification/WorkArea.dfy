/** The statements of SQLEX navigation on the fields of a workarea. Each method computes a function of
    Cursor.dfy, so what is proved there about runs holds for runs of these methods.
 */
module WorkArea {
  import opened IndexOrder
  import opened Dialects
  import opened Cursor
  import opened Refinement
  import P = PlainCursor
  import opened Runs

  /** A prepared skip statement: the level of its WHERE clause, the direction of the comparison there, and that of its
      ORDER BY clause. */
  datatype Stmt = NoStmt | Prepared(level: nat, compareUp: bool, orderUp: bool)

  datatype Fetched = ResultSetOk | NoRow | Retry

  lemma {:induction false} RowIndexFirst(rows: seq<Row>, recno: nat, i: nat)
    requires i < |rows| && rows[i].recno == recno
    requires forall k :: 0 <= k < i ==> rows[k].recno != recno
    ensures RowIndex(rows, recno) == i
    decreases i
  {
    if i > 0 {
      assert rows[0].recno != recno;
      RowIndexFirst(rows[1..], recno, i - 1);
    }
  }

  /** The flags that GoTop and GoBottom set first do not matter to where they land. */
  lemma EdgeEntered(t: Table, a: Area, d: Direction)
    ensures GoEdge(t, a.(flags := a.flags.(firstinteract := false, ok := true)), d) == GoEdge(t, a, d)
  {
    hide StorePage, EdgePage, GoToList, SingleRecord;
    StorePageKeepsFlags(a.(list := a.list.(direction := d)), a.flags.(firstinteract := false, ok := true),
                        EdgePage(t, d), EDGE_LIST_SIZE, true);
  }

  /** GoTop and GoBottom, from the window that their beginning leaves. */
  lemma GoEdgeIs(t: Table, a: Area, b: Area, c: Area, d: Direction)
    requires b == EdgeWindow(t, a.(flags := a.flags.(firstinteract := false, ok := true)), d) && c == LandOnEdge(t, b, d)
    ensures c == GoEdge(t, a, d)
  {
    EdgeEntered(t, a, d);
  }

  lemma EdgeWindowFlags(t: Table, a: Area, d: Direction)
    requires !a.flags.firstinteract && a.flags.ok
    ensures !EdgeWindow(t, a, d).flags.firstinteract && EdgeWindow(t, a, d).flags.ok
  {
  }

  /** What a skip does after its fetch. */
  function PageRead(t: Table, b: Area, q: Direction, res: Fetched): Area
  {
    match res
    case Retry => RowIsGone(t, b, q)
    case NoRow => NoMoreRows(t, b, q)
    case ResultSetOk => LoadBuffer(t, b)
  }

  lemma CleanTwice(t: Table, a: Area)
    ensures NoMoreRows(t, CleanBuffer(t, a), Forward) == NoMoreRows(t, a, Forward)
  {
  }

  /** Fetching `page` over the levels answers `res` and leaves `b`. */
  predicate Fetches(t: Table, a: Area, b: Area, page: seq<Row>, res: Fetched)
  {
    && res == FetchResult(page, a.lCurrentRecord)
    && b == AfterFetch(a, page, RECORD_LIST_SIZE, if res == NoRow then 1 else t.columns)
  }

  /** Reading a page, by what its fetch answered. */
  lemma ReadPageIs(t: Table, a: Area, b: Area, q: Direction, page: seq<Row>, res: Fetched)
    requires Fetches(t, a, b, page, res) && a.list.direction == q
    ensures ReadPage(t, a, q, page) == PageRead(t, b, q, res)
  {
  }

  lemma StorePageKeepsFlags(a: Area, g: Flags, rows: seq<Row>, max: nat, atEnd: bool)
    ensures StorePage(a.(flags := g), rows, max, atEnd) == StorePage(a, rows, max, atEnd).(flags := g)
    ensures StorePage(a, rows, max, atEnd).flags == a.flags
  {
  }

  /** The first `n` slots were taken from `rows`, the others are as they were. */
  ghost predicate Holds(slots: seq<nat>, before: seq<nat>, rows: seq<Row>, n: nat)
  {
    && |slots| == |before| && n <= |rows| && n <= |slots|
    && (forall m :: 0 <= m < n ==> slots[m] == rows[m].recno)
    && (forall m :: n <= m < |slots| ==> slots[m] == before[m])
  }

  lemma HoldsIs(slots: seq<nat>, before: seq<nat>, rows: seq<Row>, n: nat)
    requires Holds(slots, before, rows, n)
    ensures slots == Overwrite(before, Recnos(rows[..n]))
    ensures n > 0 ==> slots[n - 1] == rows[n - 1].recno
  {
  }

  lemma SkipLoopIs(t: Table, a: Area, b: Area, q: Direction, steps: nat)
    requires steps > 0 && b == Cursor.SkipRaw(t, a, q)
    ensures SkipLoop(t, a, q, steps) == if Stops(b) then b else SkipLoop(t, b, q, steps - 1)
  {
    assert Step(t, q)(a) == b;
  }

  /** Every key has the columns of the index. */
  predicate Keyed(t: Table)
  {
    && |t.emptyKey| == t.columns && (t.source == Natural ==> t.columns == 1)
    && forall r :: r in t.rows ==> |t.rows[r]| == t.columns
  }

  lemma FeedKeepsKey(t: Table, a: Area)
    requires Keyed(t)
    ensures BoundKey(t, Feed(t, a)) == BoundKey(t, a) && |BoundKey(t, a)| == t.columns
    ensures Feed(t, Feed(t, a)) == Feed(t, a)
  {
  }

  class SqlExArea {
    const t: Table
    const recordList: array<nat>
    const skipFwdStmt: array<Stmt>
    const skipBwdStmt: array<Stmt>
    var recordListSize: nat
    var recordListPos: nat
    var recordListDirection: Direction
    var lBofAt: nat
    var lEofAt: nat
    var fBof: bool
    var fEof: bool
    /** The record buffer holds the empty record. */
    var clean: bool
    var firstinteract: bool
    var lLastRec: nat
    var lCurrentRecord: nat
    var bOrderChanged: bool
    var indexLevel: int
    /** The return code of the last call. */
    var ok: bool
    /** The direction of the ORDER BY clause in sOrderBy. */
    var sOrderByUp: bool

    predicate Valid()
      reads this, skipFwdStmt, skipBwdStmt
    {
      && t.columns >= 1 && Keyed(t)
      && recordList.Length == RECORD_LIST_SIZE
      && recordListSize <= RECORD_LIST_SIZE && (recordListPos < recordListSize || recordListPos == 0)
      && skipFwdStmt.Length == skipBwdStmt.Length == t.columns && skipFwdStmt != skipBwdStmt
      && Statement(skipFwdStmt[0], Forward) && Statement(skipBwdStmt[0], Backward)
    }

    /** Direction Forward goes up the keys of an index, and down those of a reversed one. */
    predicate Upwards(q: Direction)
    {
      if q == Forward then !t.reverse else t.reverse
    }

    /** A statement of level 1 that compares and orders in direction `q`, if there is one. */
    predicate Statement(s: Stmt, q: Direction)
    {
      s == NoStmt || s == Prepared(1, Upwards(q), Upwards(q))
    }

    function View(): Area
      requires Valid()
      reads this, recordList, skipFwdStmt, skipBwdStmt
    {
      Area(RecordList(recordList[..], recordListSize, recordListPos, recordListDirection),
           Hints(lBofAt, lEofAt),
           Flags(fBof, fEof, clean, firstinteract, ok, lLastRec),
           Statements(bOrderChanged, skipFwdStmt[0].Prepared?, skipBwdStmt[0].Prepared?),
           lCurrentRecord)
    }

    lemma ViewFields()
      requires Valid()
      ensures View().flags.fEof == fEof && View().flags.fBof == fBof && View().flags.firstinteract == firstinteract
      ensures View().list.slots == recordList[..] && View().list.size == recordListSize && View().list.pos == recordListPos
      ensures recordListPos < |recordList[..]|
    {
    }

    constructor (table: Table)
      requires table.columns >= 1 && Keyed(table)
      ensures Valid() && fresh(recordList) && fresh(skipFwdStmt) && fresh(skipBwdStmt)
      ensures t == table && Opened(View())
    {
      t := table;
      recordList := new nat[RECORD_LIST_SIZE];
      skipFwdStmt := new Stmt[table.columns](_ => NoStmt);
      skipBwdStmt := new Stmt[table.columns](_ => NoStmt);
      recordListSize, recordListPos, recordListDirection := 0, 0, Forward;
      lBofAt, lEofAt, lLastRec, lCurrentRecord := 0, 0, 0, 0;
      fBof, fEof, clean, firstinteract, ok := false, false, false, true, true;
      bOrderChanged, indexLevel, sOrderByUp := true, -1, true;
    }

    method GetCurrentRecordNum() returns (recno: nat)
      requires Valid()
      ensures recno == CurrentRecordNum(View())
    {
      if fEof {
        recno := lLastRec;
      } else {
        recno := recordList[recordListPos];
      }
    }

    method GetCleanBuffer()
      requires Valid()
      modifies `lLastRec, `fEof, `clean
      ensures Valid() && View() == CleanBuffer(t, old(View()))
    {
      lLastRec := t.recCount + 1;
      fEof := true;
      clean := true;
    }

    method UpdateRecordBuffer()
      requires Valid()
      modifies `ok, `clean
      ensures Valid() && View() == LoadBuffer(t, old(View()))
    {
      ok := Exists(t, recordList[recordListPos]);
      if ok {
        clean := false;
      }
    }

    // -------------------------------------------------------------- fetch loops

    /** Fetches into the list until `iMax` rows were read or there are no more. */
    method Fetch(rows: seq<Row>, iMax: nat) returns (i: nat)
      requires Valid() && iMax <= RECORD_LIST_SIZE
      modifies recordList
      ensures Valid() && i == Min(iMax, |rows|)
      ensures recordList[..] == Overwrite(old(recordList[..]), Recnos(rows[..i]))
      ensures i > 0 ==> recordList[i - 1] == rows[i - 1].recno
    {
      i := 0;
      while i < iMax
        invariant i <= iMax && i <= |rows|
        invariant Holds(recordList[..], old(recordList[..]), rows, i)
      {
        if i == |rows| {
          break;
        }
        recordList[i] := rows[i].recno;
        i := i + 1;
      }
      HoldsIs(recordList[..], old(recordList[..]), rows, i);
    }

    method SetEnd(recno: nat)
      requires Valid()
      modifies `lBofAt, `lEofAt
      ensures Valid() && View() == old(View()).(hints := SetHint(old(View()).hints, recordListDirection, recno))
    {
      if recordListDirection == Forward {
        lEofAt := recno;
      } else {
        lBofAt := recno;
      }
    }

    /** The loop that both statements read their rows with. */
    method ReadRows(rows: seq<Row>, iMax: nat, atEnd: bool) returns (i: nat)
      requires Valid() && iMax <= RECORD_LIST_SIZE
      modifies `recordListSize, `recordListPos, `lBofAt, `lEofAt, recordList
      ensures Valid() && i == Min(iMax, |rows|)
      ensures View() == StorePage(old(View()), rows, iMax, atEnd)
    {
      i := Fetch(rows, iMax);
      if i > 0 {
        if i < iMax && atEnd {
          SetEnd(recordList[i - 1]);
        }
        recordListSize, recordListPos := i, 0;
      }
    }

    method GetRecordList(rows: seq<Row>, iMax: nat)
      requires Valid() && iMax <= RECORD_LIST_SIZE
      modifies `recordListSize, `recordListPos, `lBofAt, `lEofAt, recordList
      ensures Valid() && View() == StorePage(old(View()), rows, iMax, true)
    {
      var i := ReadRows(rows, iMax, true);
    }

    /** Fetches up to and including the current record; `next` rows were fetched. */
    method FetchCurrent(page: seq<Row>) returns (found: bool, next: nat)
      ensures next <= |page|
      ensures found ==> RowIndex(page, lCurrentRecord) + 1 == next
      ensures !found ==> RowIndex(page, lCurrentRecord) == |page|
    {
      next, found := 0, false;
      while !found
        invariant next <= |page|
        invariant forall m :: 0 <= m < (if found then next - 1 else next) ==> page[m].recno != lCurrentRecord
        invariant found ==> next > 0 && page[next - 1].recno == lCurrentRecord
        decreases |page| - next, !found
      {
        if next == |page| {
          return;
        }
        found := page[next].recno == lCurrentRecord;
        next := next + 1;
      }
      RowIndexFirst(page, lCurrentRecord, next - 1);
    }

    /** Stores the rows after the current record. */
    method FetchRows(rows: seq<Row>, iMax: nat) returns (i: nat)
      requires Valid() && 0 < iMax <= RECORD_LIST_SIZE
      modifies `recordListSize, `recordListPos, `lBofAt, `lEofAt, recordList
      ensures Valid() && i == Min(iMax, |rows|)
      ensures View() == if rows == [] then NothingRead(old(View()), indexLevel)
                        else StorePage(old(View()), rows, iMax, indexLevel == 1)
    {
      i := ReadRows(rows, iMax, indexLevel == 1);
      if i == 0 && indexLevel == 1 && recordListSize > 0 {
        SetEnd(recordList[recordListPos]);
      }
    }

    /** The rows up to and including the current record are dropped, the rows after it are stored. */
    method FetchPage(page: seq<Row>, iMax: nat) returns (res: Fetched)
      requires Valid() && 0 < iMax <= RECORD_LIST_SIZE
      modifies `recordListSize, `recordListPos, `lBofAt, `lEofAt, recordList
      ensures Valid()
      ensures res == FetchResult(page, old(lCurrentRecord))
      ensures View() == AfterFetch(old(View()), page, iMax, indexLevel)
    {
      var found, next := FetchCurrent(page);
      if !found {
        return Retry;
      }
      var i := FetchRows(page[next..], iMax);
      res := if i > 0 then ResultSetOk else NoRow;
    }

    /** Executes the prepared statement of the current direction, with `key` bound to it. */
    method Execute(key: Key) returns (page: seq<Row>)
      requires Valid()
      requires (if recordListDirection == Forward then skipFwdStmt[0] else skipBwdStmt[0]).Prepared?
      ensures page == SkipPage(t, recordListDirection, key)
    {
      var hStmt := if recordListDirection == Forward then skipFwdStmt[0] else skipBwdStmt[0];
      page := Select(t.data, SkipWhere(hStmt.level, hStmt.compareUp, key), hStmt.orderUp,
                     ResultSetLimit(t.db, RECORD_LIST_SIZE));
    }

    /** The direction of the ORDER BY clause, from that of the list. */
    method GetOrderByExpression()
      modifies `sOrderByUp
      ensures sOrderByUp == Upwards(recordListDirection)
    {
      sOrderByUp := recordListDirection == Forward;
      if t.reverse {
        sOrderByUp := !sOrderByUp;
      }
    }

    /** The direction of the comparison in the WHERE clause, from the kind of list that is asked for. */
    method GetWhereDirection(iListType: Direction) returns (up: bool)
      ensures up == Upwards(iListType)
    {
      up := iListType == Forward;
      if t.reverse {
        up := !up;
      }
    }

    method GetPreparedRecordList(key: Key, iMax: nat) returns (res: Fetched)
      requires Valid() && 0 < iMax <= RECORD_LIST_SIZE
      requires (if recordListDirection == Forward then skipFwdStmt[0] else skipBwdStmt[0]).Prepared?
      modifies `recordListSize, `recordListPos, `lBofAt, `lEofAt, recordList
      ensures Valid()
      ensures res == FetchResult(SkipPage(t, old(recordListDirection), key), old(lCurrentRecord))
      ensures View() == AfterFetch(old(View()), SkipPage(t, old(recordListDirection), key), iMax, indexLevel)
    {
      var page := Execute(key);
      res := FetchPage(page, iMax);
    }

    // -------------------------------------------------------------- moves to a record or an end

    /** Leaves the position on the last slot tried when none of them could be read. */
    method SearchWindow(recno: nat) returns (found: bool)
      requires Valid()
      modifies `recordListPos, `ok, `clean
      ensures Valid()
      ensures var l := old(View()).list;
              && found == (Exists(t, recno) && ListIndex(Window(l), recno) < |Window(l)|)
              && (found ==> recordListPos == ListIndex(Window(l), recno) && ok && !clean)
              && (!found ==> clean == old(clean))
    {
      var i := 0;
      while i < recordListSize
        invariant i <= recordListSize && Valid() && clean == old(clean)
        invariant forall k :: 0 <= k < i ==> recordList[k] != recno || !Exists(t, recno)
      {
        if recordList[i] == recno {
          recordListPos := i;
          UpdateRecordBuffer();
          if ok {
            ListIndexFirst(Window(old(View()).list), recno, i);
            return true;
          }
        }
        i := i + 1;
      }
      if Exists(t, recno) { ListIndexMisses(Window(old(View()).list), recno); }
      return false;
    }

    method StartList(recno: nat)
      requires Valid()
      modifies `recordListSize, `recordListPos, `recordListDirection, recordList
      ensures Valid()
      ensures View().list == SingleRecord(old(View()).list, recno)
    {
      recordList[0] := recno;
      recordListSize, recordListDirection, recordListPos := 1, Forward, 0;
    }

    /** First the window, then the table. */
    method FindRecord(recno: nat)
      requires Valid()
      modifies `recordListSize, `recordListPos, `recordListDirection, `ok, `clean, recordList
      ensures Valid() && ok == Exists(t, recno) && (ok ==> !clean)
      ensures View().list == if ok then GoToList(old(View()).list, recno) else SingleRecord(old(View()).list, recno)
    {
      var found := SearchWindow(recno);
      if !found {
        StartList(recno);
        UpdateRecordBuffer();
      }
    }

    method GoTo(recno: nat)
      requires Valid()
      modifies this, recordList
      ensures Valid() && View() == Cursor.GoTo(t, old(View()), recno)
    {
      firstinteract := false;
      if recno == 0 {
        ToPhantom();
        return;
      }
      FindRecord(recno);
      if !ok {
        ToPhantom();
        return;
      }
      fEof := false;
      fBof := false;
    }

    method ToPhantom()
      requires Valid()
      modifies `lLastRec, `fEof, `clean, `fBof, `ok
      ensures Valid()
      ensures View() == old(View()).(flags := Flags(true, true, true, firstinteract, true, t.recCount + 1))
    {
      GetCleanBuffer();
      fBof := true;
      ok := true;
    }

    /** Reads the window from an end of the order. */
    method ReadFromEdge(d: Direction)
      requires Valid()
      modifies `recordListSize, `recordListPos, `recordListDirection, `lBofAt, `lEofAt, `sOrderByUp, recordList
      ensures Valid() && View() == FillFromEdge(t, old(View()), d)
    {
      recordListDirection := d;
      GetOrderByExpression();
      GetRecordList(Select(t.data, Everything, sOrderByUp, ResultSetLimit(t.db, EDGE_LIST_SIZE)), EDGE_LIST_SIZE);
    }

    /** The window for an end whose hint is `known`. */
    method FindEdge(d: Direction, known: nat)
      requires Valid() && known == Hint(View().hints, Opposite(d))
      modifies this, recordList
      ensures Valid() && View() == EdgeWindow(t, old(View()), d)
    {
      if known != 0 {
        GoTo(known);
        if t.reverse != t.reverseBefore {
          ReadFromEdge(d);
        }
      } else {
        ReadFromEdge(d);
      }
    }

    method EnterEdge(d: Direction, known: nat)
      requires Valid() && known == Hint(View().hints, Opposite(d))
      modifies this, recordList
      ensures Valid() && !firstinteract && ok
      ensures View() == EdgeWindow(t, old(View().(flags := View().flags.(firstinteract := false, ok := true))), d)
    {
      firstinteract, ok := false, true;
      EdgeWindowFlags(t, View(), d);
      FindEdge(d, known);
    }

    method GoTop()
      requires Valid()
      modifies this, recordList
      ensures Valid() && View() == GoEdge(t, old(View()), Forward)
    {
      ghost var a := View();
      EnterEdge(Forward, lBofAt);
      ghost var b := View();
      LandOnTop();
      GoEdgeIs(t, a, b, View(), Forward);
    }

    method LandOnTop()
      requires Valid() && !firstinteract && ok
      modifies `lBofAt, `fBof, `fEof, `clean, `ok, `lLastRec
      ensures Valid() && View() == LandOnEdge(t, old(View()), Forward)
    {
      fEof := false;
      fBof := false;
      if recordListSize == 0 {
        ToPhantom();
      } else {
        lBofAt := recordList[recordListPos];
        UpdateRecordBuffer();
      }
    }

    method GoBottom()
      requires Valid()
      modifies this, recordList
      ensures Valid() && View() == GoEdge(t, old(View()), Backward)
    {
      ghost var a := View();
      EnterEdge(Backward, lEofAt);
      ghost var b := View();
      LandOnBottom();
      GoEdgeIs(t, a, b, View(), Backward);
    }

    method LandOnBottom()
      requires Valid() && !firstinteract && ok
      modifies `lEofAt, `fBof, `fEof, `clean, `ok, `lLastRec
      ensures Valid() && View() == LandOnEdge(t, old(View()), Backward)
    {
      fEof := false;
      fBof := false;
      if recordListSize == 0 {
        ToPhantom();
      } else {
        lEofAt := recordList[recordListPos];
        UpdateRecordBuffer();
      }
    }

    /** SR_ExecuteUpdateStmt, when an index column was written: what the list holds besides the record is not the order. */
    method CollapseList()
      requires Valid()
      modifies `recordListSize, `recordListPos, recordList
      ensures Valid() && View() == old(View()).(list := Collapsed(old(View()).list))
    {
      recordList[0] := recordList[recordListPos];
      recordListPos, recordListSize := 0, 1;
    }

    // -------------------------------------------------------------- skips

    method TrySkippingOnCache(lToSkip: int) returns (hit: bool)
      requires Valid() && (lToSkip == 1 || lToSkip == -1)
      modifies `recordListPos, `fBof, `fEof, `clean, `ok, `lLastRec
      ensures Valid() && (hit, View()) == SkipOnCache(t, old(View()), DirectionOf(lToSkip))
    {
      if recordListDirection == Forward {
        var lSupposedPos := recordListPos + lToSkip;
        if 0 <= lSupposedPos < recordListSize {
          recordListPos := lSupposedPos;
          UpdateRecordBuffer();
          return ok;
        }
        if lSupposedPos < 0 && recordList[0] == lBofAt {
          fBof := true;
          return true;
        }
        if lSupposedPos >= 0 && recordList[recordListPos] == lEofAt {
          GetCleanBuffer();
          return true;
        }
      } else {
        var lSupposedPos := recordListPos - lToSkip;
        if 0 <= lSupposedPos < recordListSize {
          recordListPos := lSupposedPos;
          UpdateRecordBuffer();
          return ok;
        }
        if lSupposedPos < 0 && recordList[0] == lEofAt {
          GetCleanBuffer();
          return true;
        }
        if lSupposedPos >= 0 && recordList[recordListPos] == lBofAt {
          fBof := true;
          return true;
        }
      }
      return false;
    }

    /** One statement. Its comparison and its ORDER BY clause go the same way, in each direction of the list and of the index. */
    method PrepareRecordListQuery()
      requires Valid() && 1 <= indexLevel <= t.columns && sOrderByUp == Upwards(recordListDirection)
      modifies skipFwdStmt, skipBwdStmt
      ensures Valid() && unchanged(recordList)
      ensures recordListDirection == Forward ==>
                skipFwdStmt[..] == old(skipFwdStmt[..])[indexLevel - 1 := Prepared(indexLevel, !t.reverse, !t.reverse)]
                && skipBwdStmt[..] == old(skipBwdStmt[..])
      ensures recordListDirection == Backward ==>
                skipBwdStmt[..] == old(skipBwdStmt[..])[indexLevel - 1 := Prepared(indexLevel, t.reverse, t.reverse)]
                && skipFwdStmt[..] == old(skipFwdStmt[..])
    {
      var compareUp := GetWhereDirection(recordListDirection);
      var hPrep := Prepared(indexLevel, compareUp, sOrderByUp);
      if recordListDirection == Forward {
        skipFwdStmt[indexLevel - 1] := hPrep;
      } else {
        skipBwdStmt[indexLevel - 1] := hPrep;
      }
    }

    /** Prepares a statement for each index column, deepest level first. */
    method PrepareLevels()
      requires Valid() && skipFwdStmt[0] == NoStmt && skipBwdStmt[0] == NoStmt
      requires sOrderByUp == Upwards(recordListDirection)
      modifies `indexLevel, skipFwdStmt, skipBwdStmt
      ensures Valid() && indexLevel == 0 && unchanged(recordList)
      ensures skipFwdStmt[0].Prepared? == (recordListDirection == Forward)
      ensures skipBwdStmt[0].Prepared? == (recordListDirection == Backward)
    {
      indexLevel := t.columns;
      while indexLevel > 0
        invariant 0 <= indexLevel <= t.columns && Valid() && unchanged(recordList)
        invariant recordListDirection == Forward ==> skipFwdStmt[0].Prepared? == (indexLevel == 0) && skipBwdStmt[0] == NoStmt
        invariant recordListDirection == Backward ==> skipBwdStmt[0].Prepared? == (indexLevel == 0) && skipFwdStmt[0] == NoStmt
      {
        PrepareRecordListQuery();
        indexLevel := indexLevel - 1;
      }
    }

    method DropStatements()
      requires Valid()
      modifies skipFwdStmt, skipBwdStmt
      ensures Valid() && unchanged(recordList) && skipFwdStmt[0] == NoStmt && skipBwdStmt[0] == NoStmt
    {
      var i := 0;
      while i < t.columns
        invariant i <= t.columns && Valid() && unchanged(recordList)
        invariant i > 0 ==> skipFwdStmt[0] == NoStmt && skipBwdStmt[0] == NoStmt
      {
        skipFwdStmt[i], skipBwdStmt[i] := NoStmt, NoStmt;
        i := i + 1;
      }
    }

    method CreateSkipStmt()
      requires Valid()
      modifies `lBofAt, `lEofAt, `bOrderChanged, `indexLevel, `sOrderByUp, skipFwdStmt, skipBwdStmt
      ensures Valid() && View() == Prepare(old(View()), recordListDirection)
    {
      if bOrderChanged
        || (recordListDirection == Forward && skipFwdStmt[0] == NoStmt)
        || (recordListDirection == Backward && skipBwdStmt[0] == NoStmt)
      {
        hide Keyed, Ascending, Upwards;
        lBofAt, lEofAt, bOrderChanged := 0, 0, false;
        DropStatements();
        GetOrderByExpression();
        PrepareLevels();
      }
    }

    /** The value of index column `iCol` of the current row: from the record buffer, or asked from the table, which takes
        the current record number again. */
    method GetIndexColumn(iCol: nat) returns (value: int)
      requires Valid() && iCol < t.columns && t.source != Natural
      modifies `lCurrentRecord
      ensures Valid() && View() == Feed(t, old(View())) && iCol < |BoundKey(t, View())| && value == BoundKey(t, View())[iCol]
    {
      var recno := recordList[recordListPos];
      if t.source == Synthetic {
        lCurrentRecord := GetCurrentRecordNum();
        value := if recno in t.rows then t.rows[recno][iCol] else t.emptyKey[iCol];
      } else {
        value := if clean || recno !in t.rows then t.emptyKey[iCol] else t.rows[recno][iCol];
      }
    }

    /** Binds the key of the current row, column by column; in natural order that is its record number. */
    method FeedCurrentRecordToBindings() returns (key: Key)
      requires Valid()
      modifies `lCurrentRecord
      ensures Valid() && View() == Feed(t, old(View())) && key == BoundKey(t, View())
    {
      if t.source == Natural {
        var recno := GetCurrentRecordNum();
        return [recno];
      }
      key := [];
      ghost var want := BoundKey(t, View());
      FeedKeepsKey(t, View());
      var iCol := 0;
      while iCol < t.columns
        invariant iCol == |key| <= t.columns && Valid()
        invariant View() == if iCol == 0 then old(View()) else Feed(t, old(View()))
        invariant key == want[..iCol]
      {
        FeedKeepsKey(t, View());
        var value := GetIndexColumn(iCol);
        key := key + [value];
        iCol := iCol + 1;
      }
    }

    /** Executes the statement until it brings a row, or its row is gone, or no level is left. */
    method ReadLevels(key: Key, lToSkip: int) returns (res: Fetched)
      requires Valid() && recordListDirection == DirectionOf(lToSkip)
      requires (if recordListDirection == Forward then skipFwdStmt[0] else skipBwdStmt[0]).Prepared?
      modifies `indexLevel, `recordListSize, `recordListPos, `lBofAt, `lEofAt, recordList
      ensures Valid() && Fetches(t, old(View()), View(), SkipPage(t, old(recordListDirection), key), res)
    {
      ghost var page := SkipPage(t, recordListDirection, key);
      indexLevel := t.columns;
      res := NoRow;
      while indexLevel > 0
        invariant 0 <= indexLevel <= t.columns && Valid() && res == NoRow
        invariant indexLevel < t.columns ==> FetchResult(page, lCurrentRecord) == NoRow
        invariant View() == if indexLevel > 0 then old(View()) else AfterFetch(old(View()), page, RECORD_LIST_SIZE, 1)
      {
        res := GetPreparedRecordList(key, RECORD_LIST_SIZE);
        indexLevel := indexLevel - 1;
        if res != NoRow {
          break;
        }
      }
    }

    /** What a skip does when no row was read. */
    method NoRowLeft(lToSkip: int)
      requires Valid() && lToSkip != 0
      modifies `lBofAt, `fBof, `fEof, `clean, `lLastRec, `ok
      ensures Valid() && View() == NoMoreRows(t, old(View()), DirectionOf(lToSkip))
    {
      if lToSkip < 0 {
        fBof := true;
        if recordListSize > 0 {
          lBofAt := recordList[recordListPos];
        }
      } else {
        GetCleanBuffer();
      }
      ok := true;
    }

    method ReadOnFrom(lToSkip: int, key: Key)
      requires Valid() && lToSkip != 0 && recordListDirection == DirectionOf(lToSkip)
      requires (if recordListDirection == Forward then skipFwdStmt[0] else skipBwdStmt[0]).Prepared?
      modifies this, recordList
      ensures Valid()
      ensures View() == ReadPage(t, old(View()), DirectionOf(lToSkip), SkipPage(t, DirectionOf(lToSkip), key))
    {
      ghost var a := View();
      var res := ReadLevels(key, lToSkip);
      ReadPageIs(t, a, View(), DirectionOf(lToSkip), SkipPage(t, DirectionOf(lToSkip), key), res);
      ShowRead(res, lToSkip);
    }

    method ShowRead(res: Fetched, lToSkip: int)
      requires Valid() && lToSkip != 0
      modifies this, recordList
      ensures Valid()
      ensures View() == PageRead(t, old(View()), DirectionOf(lToSkip), res)
    {
      if res == ResultSetOk {
        UpdateRecordBuffer();
      } else {
        RowNotRead(res, lToSkip);
      }
    }

    /** Without a row: the current row may be gone from the answer, which moves to the end skipped from. */
    method RowNotRead(res: Fetched, lToSkip: int)
      requires Valid() && lToSkip != 0
      modifies this, recordList
      ensures Valid()
      ensures View() == if res == Retry then RowIsGone(t, old(View()), DirectionOf(lToSkip))
                        else NoMoreRows(t, old(View()), DirectionOf(lToSkip))
    {
      if res == Retry {
        if lToSkip > 0 {
          CleanTwice(t, View());
          GetCleanBuffer();
        } else {
          GoTop();
        }
      }
      NoRowLeft(lToSkip);
    }

    method SkipRaw(lToSkip: int)
      requires Valid() && (lToSkip == 1 || lToSkip == -1)
      modifies this, recordList, skipFwdStmt, skipBwdStmt
      ensures Valid() && View() == Cursor.SkipRaw(t, old(View()), DirectionOf(lToSkip))
    {
      if lToSkip < 0 && lCurrentRecord == lLastRec {
        GoBottom();
        return;
      }
      var hit := TrySkippingOnCache(lToSkip);
      if hit {
        return;
      }
      recordListDirection := if lToSkip > 0 then Forward else Backward;
      CreateSkipStmt();
      var key := FeedCurrentRecordToBindings();
      ReadOnFrom(lToSkip, key);
    }

    /** The steps of a skip: up to `count` raw skips, until one fails or runs out. */
    method SkipSteps(lSkip: int, count: nat)
      requires Valid() && (lSkip == 1 || lSkip == -1)
      modifies this, recordList, skipFwdStmt, skipBwdStmt
      ensures Valid() && View() == SkipLoop(t, old(View()), DirectionOf(lSkip), count)
    {
      hide SkipLoop, Cursor.SkipRaw;
      var lToSkip := count;
      ghost var q := DirectionOf(lSkip);
      ghost var end := SkipLoop(t, View(), q, count);
      while lToSkip > 0
        invariant Valid() && SkipLoop(t, View(), q, lToSkip) == end
      {
        lToSkip := lToSkip - 1;
        ghost var a := View();
        SkipRaw(lSkip);
        SkipLoopIs(t, a, View(), q, lToSkip + 1);
        if !ok || fBof || fEof {
          return;
        }
      }
      LoopNone(t, View(), q);
    }

    method BeginSkip()
      requires Valid()
      modifies `lCurrentRecord, `fBof, `fEof, `ok
      ensures Valid() && View() == SkipStart(old(View()))
    {
      lCurrentRecord := GetCurrentRecordNum();
      fBof, fEof, ok := false, false, true;
    }

    method EndSkip(lSkip: int)
      requires Valid() && lSkip != 0
      modifies `fBof, `fEof
      ensures Valid() && View() == SkipEnd(old(View()), DirectionOf(lSkip))
    {
      if !ok {
        return;
      }
      if lSkip < 0 {
        fEof := false;
      } else {
        fBof := false;
      }
    }

    method SkipRows(lToSkip: int)
      requires Valid() && lToSkip != 0
      modifies this, recordList, skipFwdStmt, skipBwdStmt
      ensures Valid() && View() == SkipFrom(t, old(View()), lToSkip)
    {
      var lSkip := if lToSkip > 0 then 1 else -1;
      BeginSkip();
      SkipSteps(lSkip, if lToSkip > 0 then lToSkip else -lToSkip);
      EndSkip(lSkip);
    }

    method Skip(lToSkip: int)
      requires Valid()
      modifies this, recordList, skipFwdStmt, skipBwdStmt
      ensures Valid() && View() == Cursor.Skip(t, old(View()), lToSkip)
    {
      if firstinteract {
        GoTop();
      }
      if lToSkip == 0 {
        ok := true;
        return;
      }
      SkipRows(lToSkip);
    }

    method Perform(m: Move) returns (seen: Seen)
      requires Valid()
      modifies this, recordList, skipFwdStmt, skipBwdStmt
      ensures Valid() && View() == Do(t, old(View()), m) && seen == Look(View())
    {
      match m {
        case GoTop => GoTop();
        case GoBottom => GoBottom();
        case GoToRecord(recno) => GoTo(recno);
        case SkipBy(n) => Skip(n);
      }
      var recno := GetCurrentRecordNum();
      seen := Seen(recno, fBof, fEof, ok);
    }

    /** A program that opens the workarea and makes these moves sees what Cursor.Run says. */
    method PerformAll(moves: seq<Move>) returns (seen: seq<Seen>)
      requires Valid()
      modifies this, recordList, skipFwdStmt, skipBwdStmt
      ensures Valid() && seen == Run(t, old(View()), moves) && View() == After(t, old(View()), moves)
    {
      seen := [];
      var i := 0;
      while i < |moves|
        invariant i <= |moves| && Valid()
        invariant seen + Run(t, View(), moves[i..]) == Run(t, old(View()), moves)
        invariant After(t, View(), moves[i..]) == After(t, old(View()), moves)
      {
        var s := Perform(moves[i]);
        assert moves[i..][1..] == moves[i + 1..];
        seen := seen + [s];
        i := i + 1;
      }
    }

    /** So the moves of a workarea that was just opened show what the plain cursor shows, and leave it sound. */
    method PerformFromStart(moves: seq<Move>) returns (seen: seq<Seen>)
      requires Valid() && TableOk(t) && WindowWorks(t) && Opened(View()) && SingleSteps(moves)
      modifies this, recordList, skipFwdStmt, skipBwdStmt
      ensures Valid() && seen == P.PlainRun(t, P.Fresh, moves)
      ensures moves != [] ==> Gapless(Numbers(t), View())
    {
      RunsAgree(t, View(), moves);
      if moves != [] { WindowStaysGapless(t, View(), moves); }
      seen := PerformAll(moves);
    }
  }

  /** Only the statement of level 1 reads to the end of the table, so only it makes the current row that end. */
  function NothingRead(a: Area, indexLevel: int): Area
  {
    if indexLevel == 1 && a.list.size > 0 then a.(hints := SetHint(a.hints, a.list.direction, Here(a.list))) else a
  }

  function FetchResult(page: seq<Row>, recno: nat): Fetched
  {
    var current := RowIndex(page, recno);
    if current == |page| then Retry else if current + 1 == |page| then NoRow else ResultSetOk
  }

  function AfterFetch(a: Area, page: seq<Row>, iMax: nat, indexLevel: int): Area
  {
    var current := RowIndex(page, a.lCurrentRecord);
    if current == |page| then a
    else if current + 1 == |page| then NothingRead(a, indexLevel)
    else StorePage(a, page[current + 1..], iMax, indexLevel == 1)
  }
}
