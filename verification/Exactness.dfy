/** For which tables, and for which moves, the window shows what the plain cursor shows. */
module Exactness {
  import opened IndexOrder
  import opened Dialects
  import opened Cursor
  import opened Refinement
  import opened Stepping
  import opened Runs
  import P = PlainCursor

  /** Two runs that differ after one more move differ. */
  ghost predicate Differs(t: Table, a: Area, c: P.Plain, moves: seq<Move>)
  {
    Run(t, a, moves) != P.PlainRun(t, c, moves)
  }

  lemma DiffersNow(t: Table, a: Area, c: P.Plain, m: Move)
    requires Look(Do(t, a, m)) != P.PlainLook(t, P.PlainDo(t, c, m))
    ensures Differs(t, a, c, [m])
  {
    assert Run(t, a, [m])[0] == Look(Do(t, a, m));
    assert P.PlainRun(t, c, [m])[0] == P.PlainLook(t, P.PlainDo(t, c, m));
  }

  lemma DiffersLater(t: Table, a: Area, c: P.Plain, m: Move, moves: seq<Move>)
    requires Differs(t, Do(t, a, m), P.PlainDo(t, c, m), moves)
    ensures Differs(t, a, c, [m] + moves)
  {
    var all := [m] + moves;
    assert all[1..] == moves;
    assert Run(t, a, all)[1..] == Run(t, Do(t, a, m), moves);
    assert P.PlainRun(t, c, all)[1..] == P.PlainRun(t, P.PlainDo(t, c, m), moves);
  }

  // ---------------------------------------------------------------- the empty table

  lemma EmptyEdge(t: Table, a: Area, d: Direction)
    requires t.data == [] && a.list.size == 0 && a.hints == Hints(0, 0)
    ensures var b := GoEdge(t, a, d);
            && b.flags == Flags(true, true, true, false, true, t.recCount + 1)
            && b.list.size == 0 && b.hints == Hints(0, 0)
  {
    assert EdgePage(t, d) == [];
  }

  /** On an empty table a skip back from the phantom record turns EOF off. */
  lemma EmptyTableFails(t: Table, a: Area)
    requires t.data == [] && Opened(a)
    ensures Differs(t, a, P.Fresh, [GoTop, SkipBy(-1)])
  {
    EmptyEdge(t, a, Forward);
    var b := GoEdge(t, a, Forward);
    SkipFromIs(t, b, -1);
    EmptyEdge(t, SkipStart(b), Backward);
    assert Visits(t, Forward) == [];
    assert P.PlainDo(t, P.Fresh, GoTop) == P.Phantom(true);
    DiffersNow(t, b, P.Phantom(true), SkipBy(-1));
    DiffersLater(t, a, P.Fresh, GoTop, [SkipBy(-1)]);
    assert [GoTop] + [SkipBy(-1)] == [GoTop, SkipBy(-1)];
  }

  // ---------------------------------------------------------------- pages that end too soon

  lemma ShortPage(t: Table, a: Area, q: Direction, page: seq<Row>)
    requires RowIndex(page, a.lCurrentRecord) + 1 >= |page|
    ensures q == Forward ==> ReadPage(t, a, q, page).flags.fEof
    ensures q == Backward ==> ReadPage(t, a, q, page).flags.fBof
  {
  }

  lemma CutPage(f: seq<nat>, q: Direction, from: nat, page: seq<Row>, k: nat)
    requires Distinct(f) && IsSkipPage(f, q, from, true, page) && k < |f|
    requires k - from >= RECORD_LIST_SIZE && |page| <= RECORD_LIST_SIZE + 1
    ensures RowIndex(page, At(f, q, k)) + 1 >= |page|
  {
    forall m | 0 <= m < |page| - 1 ensures page[m].recno != At(f, q, k) {
      AtDiffers(f, q, from + m, k);
    }
    RowIndexAtLeast(page, At(f, q, k), if page == [] then 0 else |page| - 1);
  }

  lemma RowIndexAtLeast(rows: seq<Row>, recno: nat, n: nat)
    requires n <= |rows| && forall m :: 0 <= m < n ==> rows[m].recno != recno
    ensures RowIndex(rows, recno) >= n
  {
  }

  function OneStep(q: Direction): int
  {
    if q == Forward then 1 else -1
  }

  /** When the row limit can cut off the next row, going to the row before it and skipping shows the end. */
  lemma LimitFails(t: Table, a: Area, q: Direction, k: nat)
    requires TableOk(t) && Opened(a) && LimitsRows(t.db) && k + 1 < |Visits(t, q)|
    requires k - FirstSharing(Visits(t, q), k) >= RECORD_LIST_SIZE
    ensures exists recno: nat :: recno != 0 && Differs(t, a, P.Fresh, [GoToRecord(recno)] + [SkipBy(OneStep(q))])
  {
    hide TableOk, LimitsRows, Differs, FirstSharing;
    OrderHolds(t);
    var f := Numbers(t);
    VisitsAt(t, f, q, k);
    var i := Turn(f, q, k);
    assert f[i] in f;
    GoToRowSimulates(t, f, a, P.Fresh, i);
    LimitFailsLook(t, f, GoTo(t, a, f[i]), q, k);
    PlainGoesTo(t, f, P.Fresh, i);
    DiffersLater(t, a, P.Fresh, GoToRecord(f[i]), [SkipBy(OneStep(q))]);
  }

  lemma PlainGoesTo(t: Table, f: seq<nat>, c: P.Plain, i: nat)
    requires Order(t, f) && i < |f|
    ensures P.PlainDo(t, c, GoToRecord(f[i])) == P.OnRow(i, false)
  {
    var j := PlainGoTo(t, f, c, f[i]);
    assert f[i] in f;
  }

  lemma LimitFailsLook(t: Table, f: seq<nat>, b: Area, q: Direction, k: nat)
    requires TableOk(t) && Order(t, f) && LimitsRows(t.db) && k + 1 < |f| == |Visits(t, q)|
    requires k - FirstSharing(Visits(t, q), k) >= RECORD_LIST_SIZE
    requires Simulates(t, f, b, P.OnRow(Turn(f, q, k), false)) && b.list.size == 1 && b.hints == Hints(0, 0)
    ensures Differs(t, b, P.OnRow(Turn(f, q, k), false), [SkipBy(OneStep(q))])
  {
    hide TableOk, SkipRaw, OnWindow, LimitsRows;
    LimitFailsSkip(t, f, b, q, k);
    SeenAtEnd(t, b, q);
    PlainSkips(t, f, P.OnRow(Turn(f, q, k), false), OneStep(q));
    DiffersNow(t, b, P.OnRow(Turn(f, q, k), false), SkipBy(OneStep(q)));
  }

  lemma SeenAtEnd(t: Table, b: Area, q: Direction)
    requires var c := SkipRaw(t, SkipStart(b), q); if q == Forward then c.flags.fEof else c.flags.fBof
    requires !b.flags.firstinteract
    ensures Look(Do(t, b, SkipBy(OneStep(q)))).eof || Look(Do(t, b, SkipBy(OneStep(q)))).bof
  {
    SkipFromIs(t, b, OneStep(q));
  }

  lemma LimitFailsSkip(t: Table, f: seq<nat>, b: Area, q: Direction, k: nat)
    requires TableOk(t) && Order(t, f) && LimitsRows(t.db) && k + 1 < |f| == |Visits(t, q)|
    requires k - FirstSharing(Visits(t, q), k) >= RECORD_LIST_SIZE
    requires Simulates(t, f, b, P.OnRow(Turn(f, q, k), false)) && b.list.size == 1 && b.hints == Hints(0, 0)
    ensures var c := SkipRaw(t, SkipStart(b), q); if q == Forward then c.flags.fEof else c.flags.fBof
  {
    var i := Turn(f, q, k);
    var s := SkipStart(b);
    SkipStartsReady(t, f, b, i, false);
    OnWindowHere(f, b.list, i);
    assert !SkipOnCache(t, s, q).0 && SkipOnCache(t, s, q).1 == s;
    FedIsReady(t, f, s, q, i);
    var c := Fed(t, s, q);
    BoundKeyIs(t, f, c, q, k);
    PageOfSkip(t, f, q, k);
    var page := SkipPage(t, q, BoundKey(t, c));
    PageSize(t, q, BoundKey(t, c));
    CutPage(f, q, FirstSharing(Visits(t, q), k), page, k);
    ShortPage(t, c, q, page);
  }

  // ---------------------------------------------------------------- exactly EDGE_LIST_SIZE rows

  /** The list of GoTop when it holds the whole table, at position `pos`. */
  ghost predicate HoldsAll(f: seq<nat>, l: RecordList, pos: nat, d: Direction)
  {
    && Shape(l) && |f| == l.size == EDGE_LIST_SIZE && l.pos == pos < l.size && l.direction == d
    && forall k :: 0 <= k < l.size ==> l.slots[k] == f[k]
  }

  /** The state after a landing on `pos`, knowing these hints, with these statements prepared. */
  ghost predicate Holding(f: seq<nat>, a: Area, pos: nat, h: Hints, s: Statements)
  {
    && HoldsAll(f, a.list, pos, Forward) && a.hints == h && a.stmts == s
    && a.flags == Flags(false, false, false, false, true, a.flags.lLastRec)
  }

  lemma TopOfOpened(t: Table, f: seq<nat>, a: Area)
    requires Order(t, f) && |f| > 0 && Opened(a)
    ensures GoEdge(t, a, Forward)
         == LandOnEdge(t, a.(list := EdgeList(a.list, Forward, EdgePage(t, Forward)),
                             hints := if |f| < EDGE_LIST_SIZE then Hints(0, f[|f| - 1]) else Hints(0, 0)), Forward)
  {
    EdgePageRows(t, f, Forward);
    StoredEdge(f, Forward, a, EdgePage(t, Forward));
  }

  lemma TopHoldsAll(t: Table, f: seq<nat>, a: Area)
    requires TableOk(t) && Order(t, f) && |f| == EDGE_LIST_SIZE && Opened(a)
    ensures Holding(f, GoEdge(t, a, Forward), 0, Hints(f[0], 0), a.stmts)
    ensures GoEdge(t, a, Forward).flags.lLastRec == 0
  {
    TopOfOpened(t, f, a);
    EdgePageRows(t, f, Forward);
    TopListHoldsAll(f, a.list, EdgePage(t, Forward));
    assert f[0] in f;
  }

  lemma TopListHoldsAll(f: seq<nat>, l: RecordList, page: seq<Row>)
    requires IsEdgePage(f, Forward, page) && |f| == EDGE_LIST_SIZE && |l.slots| == RECORD_LIST_SIZE
    ensures HoldsAll(f, EdgeList(l, Forward, page), 0, Forward)
  {
    StoredList(f, Forward, 0, l.(direction := Forward), page, EDGE_LIST_SIZE);
  }

  lemma GoToHolds(t: Table, f: seq<nat>, a: Area, pos: nat, i: nat)
    requires Order(t, f) && HoldsAll(f, a.list, pos, Forward) && i < |f|
    ensures Holding(f, GoTo(t, a, f[i]), i, a.hints, a.stmts)
    ensures GoTo(t, a, f[i]).flags.lLastRec == a.flags.lLastRec
  {
    assert Window(a.list) == f;
    ListIndexFirst(f, f[i], i);
    assert f[i] in f;
  }

  /** Reading on from the last row of a table that fits into a page finds nothing. */
  lemma NothingAfterLast(t: Table, f: seq<nat>, c: Area, q: Direction, i: nat)
    requires TableOk(t) && Order(t, f) && |f| <= RECORD_LIST_SIZE && Ready(f, c, i) && Turn(f, q, i) + 1 == |f|
    requires Here(c.list) == f[i]
    ensures ReadOn(t, c, q) == PageIsEmpty(t, c, q)
  {
    var k := Turn(f, q, i);
    BoundKeyIs(t, f, c, q, k);
    PageOfSkip(t, f, q, k);
    var page := SkipPage(t, q, BoundKey(t, c));
    FoundInPage(f, q, FirstSharing(Visits(t, q), k), LimitsRows(t.db), page, k);
    ReadPageEmpty(t, c, q, page);
  }

  /** The skip at an end of the list that no hint knows: both hints are dropped, nothing is read, and the list keeps
      its order while its direction becomes the direction of the skip. */
  lemma TurnsAround(t: Table, f: seq<nat>, a: Area, q: Direction, pos: nat, h: Hints, s: Statements)
    requires TableOk(t) && Order(t, f) && |f| == EDGE_LIST_SIZE
    requires Holding(f, a, pos, h, s) && pos == (if q == Forward then |f| - 1 else 0)
    requires a.lCurrentRecord == f[pos] != a.flags.lLastRec && Hint(h, q) == 0 && MustPrepare(s, q)
    ensures SkipRaw(t, a, q)
         == PageIsEmpty(t, Area(a.list.(direction := q), Hints(0, 0), a.flags,
                                Statements(false, q == Forward, q == Backward), f[pos]), q)
  {
    assert f[pos] in f;
    assert !SkipOnCache(t, a, q).0 && SkipOnCache(t, a, q).1 == a;
    var c := Fed(t, a, q);
    assert c == Area(a.list.(direction := q), Hints(0, 0), a.flags, Statements(false, q == Forward, q == Backward), f[pos]);
    NothingAfterLast(t, f, c, q, pos);
  }

  lemma SkipOffBottom(t: Table, f: seq<nat>, a: Area, s: Statements)
    requires TableOk(t) && Order(t, f) && |f| == EDGE_LIST_SIZE
    requires Holding(f, a, |f| - 1, Hints(f[0], 0), s) && s.orderChanged && a.flags.lLastRec == 0
    ensures var b := Skip(t, a, 1);
            && HoldsAll(f, b.list, |f| - 1, Forward) && b.hints == Hints(0, f[|f| - 1])
            && b.stmts == Statements(false, true, false)
            && b.flags == Flags(false, true, true, false, true, t.recCount + 1)
  {
    var b := SkipStart(a);
    assert f[|f| - 1] in f;
    TurnsAround(t, f, b, Forward, |f| - 1, a.hints, s);
    SkipFromIs(t, a, 1);
  }

  lemma SkipOffTop(t: Table, f: seq<nat>, a: Area)
    requires TableOk(t) && Order(t, f) && |f| == EDGE_LIST_SIZE
    requires Holding(f, a, 0, Hints(0, f[|f| - 1]), Statements(false, true, false)) && a.flags.lLastRec == t.recCount + 1
    ensures var b := Skip(t, a, -1);
            && HoldsAll(f, b.list, 0, Backward) && b.hints == Hints(f[0], 0)
            && b.flags == Flags(true, false, false, false, true, t.recCount + 1)
  {
    var b := SkipStart(a);
    assert f[0] in f;
    TurnsAround(t, f, b, Backward, 0, a.hints, a.stmts);
    SkipFromIs(t, a, -1);
  }

  /** With its direction turned around, the list answers the next skip back with the second row. */
  lemma SkipTurnedAround(t: Table, f: seq<nat>, a: Area)
    requires Order(t, f) && HoldsAll(f, a.list, 0, Backward) && a.hints == Hints(f[0], 0)
    requires a.flags == Flags(true, false, false, false, true, t.recCount + 1)
    ensures Look(Skip(t, a, -1)) == Seen(f[1], false, false, true)
  {
    assert f[0] in f && f[1] in f;
    SkipInsideTurned(t, a, f[0], f[1]);
  }

  lemma SkipInsideTurned(t: Table, a: Area, first: nat, second: nat)
    requires Shape(a.list) && a.list.size > 1 && a.list.pos == 0 && a.list.direction == Backward
    requires a.list.slots[0] == first && a.list.slots[1] == second && Exists(t, second) && first != t.recCount + 1
    requires a.flags == Flags(true, false, false, false, true, t.recCount + 1)
    ensures Look(Skip(t, a, -1)) == Seen(second, false, false, true)
  {
    SkipFromIs(t, a, -1);
    assert SkipOnCache(t, SkipStart(a), Backward).0;
  }

  lemma PlainSkips(t: Table, f: seq<nat>, c: P.Plain, n: int)
    requires f == Numbers(t)
    ensures P.PlainDo(t, c, SkipBy(n)) == P.PlainSkip(|f|, c, n)
  {
  }

  /** To the last row, past it, to the first row, before it, and back once more. */
  function Around(first: nat, last: nat): seq<Move>
  {
    [GoTop] + ([GoToRecord(last)] + ([SkipBy(1)] + AroundAgain(first)))
  }

  function AroundAgain(first: nat): seq<Move>
  {
    [GoToRecord(first)] + ([SkipBy(-1)] + [SkipBy(-1)])
  }

  lemma EdgeSizeFails(t: Table, f: seq<nat>, a: Area)
    requires TableOk(t) && Order(t, f) && |f| == EDGE_LIST_SIZE && Opened(a)
    ensures Differs(t, a, P.Fresh, Around(f[0], f[24]))
  {
    var a1 := GoEdge(t, a, Forward);
    TopHoldsAll(t, f, a);
    var a2 := GoTo(t, a1, f[24]);
    GoToHolds(t, f, a1, 0, 24);
    EdgeSizeFailsBack(t, f, a2, a.stmts);
    FromTop(t, f, a, a1, [SkipBy(1)] + AroundAgain(f[0]));
  }

  lemma EdgeSizeFailsBack(t: Table, f: seq<nat>, a: Area, s: Statements)
    requires TableOk(t) && Order(t, f) && |f| == EDGE_LIST_SIZE
    requires Holding(f, a, |f| - 1, Hints(f[0], 0), s) && s.orderChanged && a.flags.lLastRec == 0
    ensures Differs(t, a, P.OnRow(24, false), [SkipBy(1)] + AroundAgain(f[0]))
  {
    SkipOffBottom(t, f, a, s);
    EdgeSizeFailsFirst(t, f, Skip(t, a, 1));
    PlainSkips(t, f, P.OnRow(24, false), 1);
    DiffersLater(t, a, P.OnRow(24, false), SkipBy(1), AroundAgain(f[0]));
  }

  lemma EdgeSizeFailsFirst(t: Table, f: seq<nat>, b: Area)
    requires TableOk(t) && Order(t, f) && |f| == EDGE_LIST_SIZE
    requires HoldsAll(f, b.list, |f| - 1, Forward) && b.hints == Hints(0, f[|f| - 1])
    requires b.stmts == Statements(false, true, false) && b.flags.lLastRec == t.recCount + 1
    ensures Differs(t, b, P.Phantom(false), AroundAgain(f[0]))
  {
    GoToHolds(t, f, b, 24, 0);
    BackTwice(t, f, GoTo(t, b, f[0]));
    PlainGoesTo(t, f, P.Phantom(false), 0);
    DiffersLater(t, b, P.Phantom(false), GoToRecord(f[0]), [SkipBy(-1)] + [SkipBy(-1)]);
  }

  lemma FromTop(t: Table, f: seq<nat>, a: Area, a1: Area, moves: seq<Move>)
    requires Order(t, f) && |f| == EDGE_LIST_SIZE && a1 == GoEdge(t, a, Forward)
    requires Differs(t, GoTo(t, a1, f[24]), P.OnRow(24, false), moves)
    ensures Differs(t, a, P.Fresh, [GoTop] + ([GoToRecord(f[24])] + moves))
  {
    PlainGoesTo(t, f, P.OnRow(0, false), 24);
    DiffersLater(t, a1, P.OnRow(0, false), GoToRecord(f[24]), moves);
    assert P.PlainDo(t, P.Fresh, GoTop) == P.OnRow(0, false);
    DiffersLater(t, a, P.Fresh, GoTop, [GoToRecord(f[24])] + moves);
  }

  lemma BackTwice(t: Table, f: seq<nat>, a: Area)
    requires TableOk(t) && Order(t, f) && |f| == EDGE_LIST_SIZE
    requires Holding(f, a, 0, Hints(0, f[|f| - 1]), Statements(false, true, false)) && a.flags.lLastRec == t.recCount + 1
    ensures Differs(t, a, P.OnRow(0, false), [SkipBy(-1)] + [SkipBy(-1)])
  {
    SkipOffTop(t, f, a);
    SkipTurnedAround(t, f, Skip(t, a, -1));
    PlainSkips(t, f, P.OnRow(0, true), -1);
    PlainSkips(t, f, P.OnRow(0, false), -1);
    DiffersNow(t, Skip(t, a, -1), P.OnRow(0, true), SkipBy(-1));
    DiffersLater(t, a, P.OnRow(0, false), SkipBy(-1), [SkipBy(-1)]);
  }

  // ---------------------------------------------------------------- exactly when

  /** Every run from every opened workarea shows what the plain cursor shows. */
  ghost predicate WindowAgrees(t: Table)
  {
    forall a: Area, moves: seq<Move> :: Opened(a) && SingleSteps(moves) ==> Run(t, a, moves) == P.PlainRun(t, P.Fresh, moves)
  }

  function NewArea(): Area
  {
    Area(RecordList(seq(RECORD_LIST_SIZE, i => 0), 0, 0, Forward), Hints(0, 0),
         Flags(false, false, true, true, true, 0), Statements(true, false, false), 0)
  }

  lemma WindowDisagrees(t: Table, moves: seq<Move>)
    requires SingleSteps(moves) && Differs(t, NewArea(), P.Fresh, moves)
    ensures !WindowAgrees(t)
  {
    assert Opened(NewArea());
  }

  lemma WindowFailsOnEmpty(t: Table)
    requires TableOk(t) && t.data == []
    ensures !WindowAgrees(t)
  {
    EmptyTableFails(t, NewArea());
    WindowDisagrees(t, [GoTop, SkipBy(-1)]);
  }

  lemma AroundIsSingle(first: nat, last: nat)
    requires first != 0 && last != 0
    ensures SingleSteps(Around(first, last))
  {
    assert Around(first, last)
        == [GoTop, GoToRecord(last), SkipBy(1), GoToRecord(first), SkipBy(-1), SkipBy(-1)];
  }

  lemma WindowFailsOnEdgeSize(t: Table)
    requires TableOk(t) && |t.data| == EDGE_LIST_SIZE
    ensures !WindowAgrees(t)
  {
    OrderHolds(t);
    var f := Numbers(t);
    EdgeSizeFails(t, f, NewArea());
    assert f[0] in f && f[24] in f;
    AroundIsSingle(f[0], f[24]);
    WindowDisagrees(t, Around(f[0], f[24]));
  }

  lemma WindowFailsByLimit(t: Table, q: Direction, k: nat)
    requires TableOk(t) && LimitsRows(t.db) && k + 1 < |Visits(t, q)|
    requires k - FirstSharing(Visits(t, q), k) >= RECORD_LIST_SIZE
    ensures !WindowAgrees(t)
  {
    hide TableOk, LimitsRows, Differs, FirstSharing;
    LimitFails(t, NewArea(), q, k);
    var recno: nat :| recno != 0 && Differs(t, NewArea(), P.Fresh, [GoToRecord(recno)] + [SkipBy(OneStep(q))]);
    WindowDisagrees(t, [GoToRecord(recno)] + [SkipBy(OneStep(q))]);
  }

  lemma WindowFails(t: Table)
    requires TableOk(t) && !WindowWorks(t)
    ensures !WindowAgrees(t)
  {
    if t.data == [] {
      WindowFailsOnEmpty(t);
    } else if |t.data| == EDGE_LIST_SIZE {
      WindowFailsOnEdgeSize(t);
    } else {
      var q: Direction, k: nat :| k + 1 < |Visits(t, q)| && k - FirstSharing(Visits(t, q), k) >= RECORD_LIST_SIZE;
      WindowFailsByLimit(t, q, k);
    }
  }

  /** The window is as good as the plain cursor, over all runs of GoTop, GoBottom, GoTo and single skips, exactly for
      the tables that have rows, but not EDGE_LIST_SIZE of them, and whose dialect either does not limit rows or
      cannot cut off a next row. */
  lemma WindowAgreesExactly(t: Table)
    requires TableOk(t)
    ensures WindowAgrees(t) <==> WindowWorks(t)
  {
    if WindowWorks(t) {
      forall a: Area, moves: seq<Move> | Opened(a) && SingleSteps(moves)
        ensures Run(t, a, moves) == P.PlainRun(t, P.Fresh, moves)
      {
        RunsAgree(t, a, moves);
      }
    } else {
      WindowFails(t);
    }
  }
}
