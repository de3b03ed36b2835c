/** Skips of more than one row. sqlExSkip takes the current record number once, before the first of its steps; a later
    step that has to read on looks for that record, which is behind it by then. */
module Skips {
  import opened IndexOrder
  import opened Dialects
  import opened Cursor
  import opened Refinement
  import opened Stepping
  import opened Runs
  import P = PlainCursor

  // ---------------------------------------------------------------- back from the phantom record

  /** On the last row after a step back from the phantom record, and ready for another one. */
  ghost predicate AtBottom(f: seq<nat>, b: Area, g: Flags)
  {
    |f| > 0 && OnWindow(f, b.list, b.hints, |f| - 1) && b.flags == Landing(g) && b.lCurrentRecord == g.lLastRec
  }

  ghost predicate KeepsBottom(f: seq<nat>, step: Area -> Area, g: Flags)
  {
    forall b: Area :: AtBottom(f, b, g) ==> AtBottom(f, step(b), g)
  }

  lemma BottomStep(t: Table, f: seq<nat>, a: Area, j: nat)
    requires Order(t, f) && |f| != EDGE_LIST_SIZE
    requires Settled(f, a.list, a.hints, j) && a.lCurrentRecord == a.flags.lLastRec
    ensures AtBottom(f, Step(t, Backward)(a), a.flags)
  {
    GoEdgeLands(t, f, a, j, Backward);
    assert Step(t, Backward)(a) == SkipRaw(t, a, Backward) == GoEdge(t, a, Backward);
  }

  lemma {:induction false} RepeatAtBottom(f: seq<nat>, step: Area -> Area, a: Area, g: Flags, steps: nat)
    requires steps > 0 && AtBottom(f, step(a), g) && KeepsBottom(f, step, g)
    ensures AtBottom(f, Repeat(step, a, steps), g)
    decreases steps
  {
    if steps > 1 { RepeatAtBottom(f, step, step(a), g, steps - 1); }
  }

  /** Every step back from the phantom record goes to the last row again. */
  lemma LoopAtBottom(t: Table, f: seq<nat>, a: Area, j: nat, steps: nat)
    requires Order(t, f) && |f| != EDGE_LIST_SIZE && steps > 0
    requires Settled(f, a.list, a.hints, j) && a.lCurrentRecord == a.flags.lLastRec
    ensures AtBottom(f, SkipLoop(t, a, Backward, steps), a.flags)
  {
    BottomStep(t, f, a, j);
    forall b: Area | AtBottom(f, b, a.flags) ensures AtBottom(f, Step(t, Backward)(b), a.flags) {
      BottomStep(t, f, b, |f| - 1);
    }
    RepeatAtBottom(f, Step(t, Backward), a, a.flags, steps);
  }

  lemma RepeatOn(step: Area -> Area, a: Area, steps: nat)
    requires steps > 0 && !Stops(step(a))
    ensures Repeat(step, a, steps) == Repeat(step, step(a), steps - 1)
  {
  }

  function Count(n: int): nat
  {
    if n < 0 then -n else n
  }

  lemma SkipIs(t: Table, a: Area, n: int)
    requires n != 0 && !a.flags.firstinteract
    ensures Skip(t, a, n) == SkipEnd(SkipLoop(t, SkipStart(a), DirectionOf(n), Count(n)), DirectionOf(n))
  {
  }

  /** Skipping back from the phantom record by any number of rows lands on the last row. */
  lemma SkipBackLandsOnLast(t: Table, f: seq<nat>, a: Area, bof: bool, n: int)
    requires TableOk(t) && Order(t, f) && |f| > 0 && |f| != EDGE_LIST_SIZE && n < 0
    requires Simulates(t, f, a, P.Phantom(bof))
    ensures Simulates(t, f, Skip(t, a, n), P.OnRow(|f| - 1, false))
  {
    PhantomStarts(t, f, a, bof);
    LoopLandsOnLast(t, f, SkipStart(a), Count(n));
    SkipIs(t, a, n);
  }

  lemma LoopLandsOnLast(t: Table, f: seq<nat>, a: Area, steps: nat)
    requires TableOk(t) && Order(t, f) && |f| > 0 && |f| != EDGE_LIST_SIZE && PhantomReady(t, f, a) && steps > 0
    ensures Simulates(t, f, SkipEnd(SkipLoop(t, a, Backward, steps), Backward), P.OnRow(|f| - 1, false))
  {
    LoopAtBottom(t, f, a, |f| - 1, steps);
    LandedOnLast(t, f, SkipLoop(t, a, Backward, steps));
  }

  lemma PlainBack(t: Table, f: seq<nat>, bof: bool, n: int)
    requires Order(t, f) && |f| > 0 && n < 0
    ensures P.PlainLook(t, P.OnRow(|f| - 1, false)) == P.PlainLook(t, P.PlainSkip(|f|, P.Phantom(bof), n)) <==> n == -1
  {
    if n < -1 && |f| + n >= 0 {
      assert f[|f| - 1] != f[|f| + n];
    }
  }

  /** So a skip back from the phantom record shows what it should exactly when it is a skip by one row. */
  lemma SkipBackExactly(t: Table, f: seq<nat>, a: Area, bof: bool, n: int)
    requires TableOk(t) && Order(t, f) && |f| > 0 && |f| != EDGE_LIST_SIZE && n < 0
    requires Simulates(t, f, a, P.Phantom(bof))
    ensures Look(Skip(t, a, n)) == P.PlainLook(t, P.PlainSkip(|f|, P.Phantom(bof), n)) <==> n == -1
  {
    SkipBackLandsOnLast(t, f, a, bof, n);
    SameLook(t, f, Skip(t, a, n), P.OnRow(|f| - 1, false));
    PlainBack(t, f, bof, n);
  }

  // ---------------------------------------------------------------- inside the window

  /** How many rows the window still has in direction `q`. */
  function Ahead(l: RecordList, q: Direction): nat
  {
    if l.direction != q then l.pos
    else if l.pos < l.size then l.size - 1 - l.pos
    else 0
  }

  function Moved(l: RecordList, q: Direction, steps: nat): RecordList
    requires l.direction != q ==> steps <= l.pos
  {
    l.(pos := if l.direction == q then l.pos + steps else l.pos - steps)
  }

  lemma MovedOnWindow(f: seq<nat>, l: RecordList, h: Hints, q: Direction, i: nat, steps: nat)
    requires OnWindow(f, l, h, i) && steps <= Ahead(l, q)
    ensures Turn(f, q, i) + steps < |f|
    ensures OnWindow(f, Moved(l, q, steps), h, Turn(f, q, Turn(f, q, i) + steps))
  {
    WindowMoves(f, l, h, i, Moved(l, q, steps).pos, Turn(f, q, Turn(f, q, i) + steps), h);
  }

  /** A row that a step can leave without taking the current record number again. */
  ghost predicate Clear(f: seq<nat>, a: Area, i: nat)
  {
    && OnWindow(f, a.list, a.hints, i)
    && a.flags == Flags(false, false, false, false, true, a.flags.lLastRec)
    && a.lCurrentRecord != a.flags.lLastRec
  }

  lemma RawInside(t: Table, f: seq<nat>, a: Area, q: Direction, i: nat)
    requires Order(t, f) && Clear(f, a, i) && Ahead(a.list, q) > 0
    ensures SkipRaw(t, a, q) == a.(list := Moved(a.list, q, 1))
  {
    SlotExists(t, f, a.list, i, Supposed(a.list, q));
  }

  function Advanced(a: Area, q: Direction, steps: nat): Area
    requires a.list.direction != q ==> steps <= a.list.pos
  {
    a.(list := Moved(a.list, q, steps))
  }

  lemma AdvancedIsClear(f: seq<nat>, a: Area, q: Direction, i: nat, steps: nat)
    requires Clear(f, a, i) && steps <= Ahead(a.list, q)
    ensures Turn(f, q, i) + steps < |f|
    ensures Clear(f, Advanced(a, q, steps), Turn(f, q, Turn(f, q, i) + steps))
  {
    MovedOnWindow(f, a.list, a.hints, q, i, steps);
  }

  /** The step from `j` rows ahead goes to the next row of the window. */
  ghost predicate Advances(step: Area -> Area, a: Area, q: Direction, j: nat)
  {
    j < Ahead(a.list, q) && step(Advanced(a, q, j)) == Advanced(a, q, j + 1)
  }

  lemma {:induction false} RepeatAlong(step: Area -> Area, a: Area, q: Direction, done: nat, steps: nat, all: nat)
    requires done <= steps <= Ahead(a.list, q) && steps <= all && !Stops(a)
    requires forall j :: done <= j < steps ==> Advances(step, a, q, j)
    ensures Repeat(step, Advanced(a, q, done), all - done) == Repeat(step, Advanced(a, q, steps), all - steps)
    decreases steps - done
  {
    if done < steps {
      assert Advances(step, a, q, done);
      RepeatAlong(step, a, q, done + 1, steps, all);
    }
  }

  lemma AllInside(t: Table, f: seq<nat>, a: Area, q: Direction, i: nat, steps: nat)
    requires Order(t, f) && Clear(f, a, i) && steps <= Ahead(a.list, q)
    ensures forall j :: 0 <= j < steps ==> Advances(Step(t, q), a, q, j)
  {
    forall j | 0 <= j < steps ensures Advances(Step(t, q), a, q, j) {
      StepInside(t, f, a, q, i, j);
    }
  }

  lemma RepeatThrough(step: Area -> Area, a: Area, q: Direction, steps: nat, all: nat)
    requires steps <= Ahead(a.list, q) && steps <= all && !Stops(a)
    requires forall j :: 0 <= j < steps ==> Advances(step, a, q, j)
    ensures Repeat(step, a, all) == Repeat(step, Advanced(a, q, steps), all - steps)
  {
    RepeatAlong(step, a, q, 0, steps, all);
    assert Advanced(a, q, 0) == a;
  }

  /** Without an end on the way, a skip in two parts is one skip. */
  lemma LoopInside(t: Table, f: seq<nat>, a: Area, q: Direction, i: nat, steps: nat, all: nat)
    requires Order(t, f) && Clear(f, a, i) && steps <= Ahead(a.list, q) && steps <= all
    ensures SkipLoop(t, a, q, all) == SkipLoop(t, Advanced(a, q, steps), q, all - steps)
  {
    AllInside(t, f, a, q, i, steps);
    RepeatThrough(Step(t, q), a, q, steps, all);
  }

  lemma StepInside(t: Table, f: seq<nat>, a: Area, q: Direction, i: nat, j: nat)
    requires Order(t, f) && Clear(f, a, i) && j < Ahead(a.list, q)
    ensures Advances(Step(t, q), a, q, j)
  {
    AdvancedIsClear(f, a, q, i, j);
    RawInside(t, f, Advanced(a, q, j), q, Turn(f, q, Turn(f, q, i) + j));
  }

  // ---------------------------------------------------------------- past the window

  /** What a skip shows that ran out in direction `q`. */
  ghost predicate RanOutLook(t: Table, f: seq<nat>, b: Area, q: Direction)
  {
    if q == Forward then b.flags.fEof && b.flags.ok && b.flags.lLastRec == t.recCount + 1
    else b.flags.fBof && !b.flags.fEof && b.flags.ok && |f| > 0 && Here(b.list) == f[0]
  }

  /** Rows `j` and `k` of direction `q` have the same first index column. */
  predicate Shares(t: Table, q: Direction, j: nat, k: nat)
  {
    j < |Visits(t, q)| && k < |Visits(t, q)| && SameFirstColumn(Visits(t, q)[j].key, Visits(t, q)[k].key)
  }

  lemma SharesIs(t: Table, q: Direction, j: nat, k: nat)
    requires TableOk(t) && j < k < |Visits(t, q)|
    ensures Shares(t, q, j, k) <==> FirstSharing(Visits(t, q), k) <= j
    ensures Shares(t, q, j, k) ==> t.columns > 1 && FirstSharing(Visits(t, q), j) == FirstSharing(Visits(t, q), k)
  {
    VisitsAreOrdered(t, q);
    SharingIs(Visits(t, q), t.columns, Ascending(t, q), j, k);
    if Shares(t, q, j, k) {
      SameSharing(Visits(t, q), j, k);
      if t.columns == 1 { SingleColumnSharesNothing(Visits(t, q), Ascending(t, q), k); }
    }
  }

  /** The statement of a row does not read the rows before it that have another first column. */
  lemma StaleRecordIsGone(t: Table, f: seq<nat>, q: Direction, stale: nat, k: nat)
    requires TableOk(t) && Order(t, f) && stale < k < |f| && !Shares(t, q, stale, k)
    ensures |Visits(t, q)| == |f|
    ensures RowIndex(SkipPage(t, q, Visits(t, q)[k].key), At(f, q, stale)) == |SkipPage(t, q, Visits(t, q)[k].key)|
  {
    PageOfSkip(t, f, q, k);
    SharesIs(t, q, stale, k);
    NotAmong(f, q, FirstSharing(Visits(t, q), k), LimitsRows(t.db), SkipPage(t, q, Visits(t, q)[k].key), stale);
  }

  lemma NotAmong(f: seq<nat>, q: Direction, from: nat, limited: bool, page: seq<Row>, stale: nat)
    requires Distinct(f) && IsSkipPage(f, q, from, limited, page) && stale < from <= |f|
    ensures RowIndex(page, At(f, q, stale)) == |page|
  {
    forall m | 0 <= m < |page| ensures page[m].recno != At(f, q, stale) {
      AtDiffers(f, q, from + m, stale);
    }
  }

  /** Reading on with the number of an earlier row that has another first column runs out, wherever in the table. */
  lemma StaleRefill(t: Table, f: seq<nat>, a: Area, q: Direction, k: nat, stale: nat)
    requires TableOk(t) && Order(t, f) && |f| != EDGE_LIST_SIZE && t.source != Synthetic
    requires stale < k < |f| && Clear(f, a, Turn(f, q, k)) && a.lCurrentRecord == At(f, q, stale)
    requires !Shares(t, q, stale, k)
    ensures RanOutLook(t, f, Refill(t, a, q), q)
  {
    var c := Fed(t, a, q);
    FedKeeps(t, f, a, q, k);
    BoundKeyIs(t, f, c, q, k);
    StaleRecordIsGone(t, f, q, stale, k);
    ReadPageGone(t, c, q, SkipPage(t, q, BoundKey(t, c)));
    StaleGone(t, f, a, c, q, Turn(f, q, k));
  }

  /** What reading on starts from, when the record number stays as it was taken. */
  lemma FedKeeps(t: Table, f: seq<nat>, a: Area, q: Direction, k: nat)
    requires t.source != Synthetic && k < |f| && Clear(f, a, Turn(f, q, k))
    ensures var c := Fed(t, a, q);
            && c.list == a.list.(direction := q) && c.flags == a.flags && c.lCurrentRecord == a.lCurrentRecord
            && Here(c.list) == At(f, q, k) && HintsSound(f, c.hints)
            && c.hints == ReadHints(a, q) && !MustPrepare(c.stmts, q)
  {
    OnWindowHere(f, a.list, Turn(f, q, k));
  }

  /** The hints that a read in direction `q` starts from. */
  function ReadHints(a: Area, q: Direction): Hints
  {
    if MustPrepare(a.stmts, q) then Hints(0, 0) else a.hints
  }

  lemma StaleGone(t: Table, f: seq<nat>, a: Area, c: Area, q: Direction, i: nat)
    requires TableOk(t) && Order(t, f) && |f| != EDGE_LIST_SIZE
    requires OnWindow(f, a.list, a.hints, i) && c.list == a.list.(direction := q) && HintsSound(f, c.hints)
    requires q == Backward ==> !c.flags.fEof
    ensures RanOutLook(t, f, RowIsGone(t, c, q), q)
  {
    if q == Backward {
      GoTopAnyway(t, f, c);
    }
  }

  /** GoTop lands on the first row whatever the window holds, as long as a search of it finds only what is there. */
  lemma GoTopAnyway(t: Table, f: seq<nat>, c: Area)
    requires TableOk(t) && Order(t, f) && |f| != EDGE_LIST_SIZE && HintsSound(f, c.hints) && Shape(c.list)
    ensures Here(GoEdge(t, c, Forward).list) == f[0] && GoEdge(t, c, Forward).list.size > 0
    ensures GoEdge(t, c, Forward).flags == Landing(c.flags)
  {
    assert f[0] in f;
    if c.hints.lBofAt == 0 {
      FilledFromEdge(t, f, c, Forward);
      OnWindowHere(f, GoEdge(t, c, Forward).list, 0);
    } else {
      var b := GoTo(t, c, f[0]);
      GoToHere(c.list, f[0]);
      if t.reverse != t.reverseBefore {
        FilledFromEdge(t, f, b, Forward);
        OnWindowHere(f, GoEdge(t, c, Forward).list, 0);
      }
    }
  }

  lemma GoToHere(l: RecordList, recno: nat)
    requires Shape(l)
    ensures Here(GoToList(l, recno)) == recno && GoToList(l, recno).size > 0 && Shape(GoToList(l, recno))
  {
  }

  // ---------------------------------------------------------------- how far a skip reaches

  /** Whether a step from the edge of the window, row `k`, runs out, when the record number is that of row `stale`: a hint
      knows the edge for the end, or the statement of the edge does not read row `stale`. */
  predicate EdgeStops(t: Table, f: seq<nat>, q: Direction, stale: nat, k: nat, h: Hints)
  {
    k >= |f| || At(f, q, k) == Hint(h, q) || !Shares(t, q, stale, k)
  }

  lemma EdgeRunsOut(t: Table, f: seq<nat>, a: Area, q: Direction, k: nat, stale: nat)
    requires TableOk(t) && Order(t, f) && |f| != EDGE_LIST_SIZE && t.source != Synthetic
    requires stale < k < |f| && Clear(f, a, Turn(f, q, k)) && Ahead(a.list, q) == 0 && a.lCurrentRecord == At(f, q, stale)
    requires EdgeStops(t, f, q, stale, k, a.hints)
    ensures RanOutLook(t, f, SkipRaw(t, a, q), q)
  {
    var i := Turn(f, q, k);
    OnWindowHere(f, a.list, i);
    assert f[i] in f;
    if SkipOnCache(t, a, q).0 {
      KnowsTheEnd(f, a.list, a.hints, q, i);
    } else {
      CacheMisses(t, f, a, q, i);
      StaleRefill(t, f, a, q, k, stale);
    }
  }

  lemma RanOutStops(t: Table, f: seq<nat>, a: Area, q: Direction, steps: nat)
    requires steps > 0 && RanOutLook(t, f, SkipRaw(t, a, q), q)
    ensures SkipLoop(t, a, q, steps) == SkipRaw(t, a, q)
  {
    RepeatStops(Step(t, q), a, steps);
  }

  lemma RepeatStops(step: Area -> Area, a: Area, steps: nat)
    requires steps > 0 && Stops(step(a))
    ensures Repeat(step, a, steps) == step(a)
  {
  }

  // ---------------------------------------------------------------- reading on from an earlier row

  /** Where the page ends that a read from row `k` brings. */
  function PageEnd(t: Table, q: Direction, k: nat): nat
    requires k < |Visits(t, q)|
  {
    if LimitsRows(t.db) then Min(|Visits(t, q)|, FirstSharing(Visits(t, q), k) + RECORD_LIST_SIZE + 1) else |Visits(t, q)|
  }

  /** How many rows the window has that a read with the number of row `k` leaves: those after row `k` in the page, as
      many as the list holds. */
  function NextSize(t: Table, q: Direction, k: nat): nat
  {
    if k < |Visits(t, q)| && k + 1 < PageEnd(t, q, k) then Min(RECORD_LIST_SIZE, PageEnd(t, q, k) - k - 1) else 0
  }

  lemma VisitsCount(t: Table, f: seq<nat>, q: Direction)
    requires TableOk(t) && Order(t, f)
    ensures |Visits(t, q)| == |f| == |t.data|
  {
    VisitsAreOrdered(t, q);
  }

  lemma NextSizeIs(t: Table, q: Direction, k: nat)
    requires LimitSuffices(t) && k + 1 < |Visits(t, q)|
    ensures 0 < NextSize(t, q, k) && k + NextSize(t, q, k) < |Visits(t, q)|
  {
    if LimitsRows(t.db) { LimitKeepsNext(t, q, k); }
  }

  /** On the row after row `k`, at the beginning of a window of `w` rows, with the record number of row `k`. */
  ghost predicate Restarted(t: Table, f: seq<nat>, b: Area, q: Direction, k: nat, w: nat, h: Hints)
  {
    && k + 1 < |f| && Clear(f, b, Turn(f, q, k + 1)) && b.lCurrentRecord == At(f, q, k)
    && b.list.pos == 0 && b.list.direction == q && b.list.size == w
    && (t.columns == 1 || b.hints == h) && !MustPrepare(b.stmts, q)
  }

  lemma RestOfPageStored(t: Table, f: seq<nat>, c: Area, q: Direction, from: nat, k: nat, page: seq<Row>)
    requires Distinct(f) && IsSkipPage(f, q, from, LimitsRows(t.db), page) && from <= k < from + |page| - 1
    requires c.lCurrentRecord == At(f, q, k) && c.list.direction == q
    ensures var b := ReadPage(t, c, q, page);
            && b.list.size == Min(RECORD_LIST_SIZE, from + |page| - k - 1) && b.list.pos == 0 && b.list.direction == q
            && b.lCurrentRecord == c.lCurrentRecord && b.stmts == c.stmts && (t.columns == 1 || b.hints == c.hints)
  {
    FoundInPage(f, q, from, LimitsRows(t.db), page, k);
    ReadPageFound(t, c, q, page, k - from);
  }

  lemma PageEndIs(t: Table, f: seq<nat>, q: Direction, k: nat, page: seq<Row>)
    requires LimitSuffices(t) && k + 1 < |f| == |Visits(t, q)|
    requires IsSkipPage(f, q, FirstSharing(Visits(t, q), k), LimitsRows(t.db), page)
    requires LimitsRows(t.db) ==> |page| <= RECORD_LIST_SIZE + 1
    ensures FirstSharing(Visits(t, q), k) + |page| == PageEnd(t, q, k) > k + 1
  {
    if LimitsRows(t.db) { LimitKeepsNext(t, q, k); }
  }

  lemma PageRestarts(t: Table, f: seq<nat>, c: Area, q: Direction, k: nat, page: seq<Row>)
    requires TableOk(t) && Order(t, f) && LimitSuffices(t) && k + 1 < |f| == |Visits(t, q)|
    requires HintsSound(f, c.hints) && Ready(f, c, Turn(f, q, k)) && |c.list.slots| == RECORD_LIST_SIZE
    requires c.list.direction == q && !MustPrepare(c.stmts, q)
    requires IsSkipPage(f, q, FirstSharing(Visits(t, q), k), LimitsRows(t.db), page)
    requires LimitsRows(t.db) ==> |page| <= RECORD_LIST_SIZE + 1
    ensures Restarted(t, f, ReadPage(t, c, q, page), q, k, NextSize(t, q, k), c.hints)
  {
    PageEndIs(t, f, q, k, page);
    ReadsMore(t, f, c, q, FirstSharing(Visits(t, q), k), k, page);
    RestOfPageStored(t, f, c, q, FirstSharing(Visits(t, q), k), k, page);
    RestartedIs(t, f, ReadPage(t, c, q, page), q, k, NextSize(t, q, k), c.hints, c.flags.lLastRec);
  }

  lemma RestartedIs(t: Table, f: seq<nat>, b: Area, q: Direction, k: nat, w: nat, h: Hints, lastRec: nat)
    requires k + 1 < |f| && Stepped(t, f, b, lastRec, q, Turn(f, q, k))
    requires b.lCurrentRecord == At(f, q, k) != lastRec && b.list.pos == 0 && b.list.direction == q && b.list.size == w
    requires (t.columns == 1 || b.hints == h) && !MustPrepare(b.stmts, q)
    ensures Restarted(t, f, b, q, k, w, h)
  {
  }

  /** Reading on from row `k` with the number of row `stale`, which the statement reads too, goes to the row after `stale`. */
  lemma RefillRestarts(t: Table, f: seq<nat>, a: Area, q: Direction, k: nat, stale: nat)
    requires TableOk(t) && Order(t, f) && LimitSuffices(t) && t.source != Synthetic
    requires stale <= k < |f| && stale + 1 < |f| && Clear(f, a, Turn(f, q, k)) && a.lCurrentRecord == At(f, q, stale)
    requires stale == k || Shares(t, q, stale, k)
    ensures Restarted(t, f, Refill(t, a, q), q, stale, NextSize(t, q, stale), ReadHints(a, q))
  {
    var c := Fed(t, a, q);
    FedKeeps(t, f, a, q, k);
    BoundKeyIs(t, f, c, q, k);
    PageOfSkip(t, f, q, k);
    if stale < k { SharesIs(t, q, stale, k); }
    if LimitsRows(t.db) { PageSize(t, q, BoundKey(t, c)); }
    PageRestarts(t, f, c, q, stale, SkipPage(t, q, BoundKey(t, c)));
  }

  lemma EdgeRestarts(t: Table, f: seq<nat>, a: Area, q: Direction, k: nat, stale: nat)
    requires TableOk(t) && Order(t, f) && LimitSuffices(t) && t.source != Synthetic
    requires stale <= k < |f| && stale + 1 < |f| && Clear(f, a, Turn(f, q, k)) && a.lCurrentRecord == At(f, q, stale)
    requires Ahead(a.list, q) == 0
    requires stale == k || !EdgeStops(t, f, q, stale, k, a.hints)
    ensures Restarted(t, f, SkipRaw(t, a, q), q, stale, NextSize(t, q, stale), ReadHints(a, q))
  {
    var i := Turn(f, q, k);
    OnWindowHere(f, a.list, i);
    assert f[i] in f;
    if SkipOnCache(t, a, q).0 {
      KnowsTheEnd(f, a.list, a.hints, q, i);
      assert false;
    } else {
      CacheMisses(t, f, a, q, i);
      RefillRestarts(t, f, a, q, k, stale);
    }
  }

  // ---------------------------------------------------------------- where a skip comes to

  /** After a skip: it ran out, or it is on row `k`. */
  ghost predicate Comes(t: Table, f: seq<nat>, b: Area, q: Direction, out: bool, k: nat)
  {
    if out then RanOutLook(t, f, b, q)
    else k < |f| && OnWindow(f, b.list, b.hints, Turn(f, q, k)) && b.flags == Flags(false, false, false, false, true, b.flags.lLastRec)
  }

  ghost predicate ClearAt(f: seq<nat>, a: Area, q: Direction, k: nat)
  {
    k < |f| && Clear(f, a, Turn(f, q, k))
  }

  lemma AdvancedAt(f: seq<nat>, a: Area, q: Direction, k: nat, steps: nat)
    requires ClearAt(f, a, q, k) && steps <= Ahead(a.list, q)
    ensures ClearAt(f, Advanced(a, q, steps), q, k + steps)
  {
    var i: nat :| i == Turn(f, q, k);
    AdvancedIsClear(f, a, q, i, steps);
    assert Turn(f, q, i) == k;
  }

  lemma ComesInside(t: Table, f: seq<nat>, a: Area, q: Direction, k: nat, steps: nat)
    requires Order(t, f) && ClearAt(f, a, q, k) && steps <= Ahead(a.list, q)
    ensures Comes(t, f, SkipLoop(t, a, q, steps), q, false, k + steps)
  {
    hide Order, OnWindow, Repeat, SkipRaw;
    LoopInside(t, f, a, q, Turn(f, q, k), steps, steps);
    AdvancedAt(f, a, q, k, steps);
    ComesClear(t, f, Advanced(a, q, steps), q, k + steps);
    LoopNone(t, Advanced(a, q, steps), q);
  }

  lemma ComesClear(t: Table, f: seq<nat>, b: Area, q: Direction, k: nat)
    requires ClearAt(f, b, q, k)
    ensures Comes(t, f, b, q, false, k)
  {
  }

  /** The edge of the window, from a row inside it. */
  lemma ToTheEdge(t: Table, f: seq<nat>, a: Area, q: Direction, k: nat, steps: nat) returns (e: Area)
    requires Order(t, f) && ClearAt(f, a, q, k) && steps >= Ahead(a.list, q)
    ensures ClearAt(f, e, q, k + Ahead(a.list, q)) && Ahead(e.list, q) == 0
    ensures e.lCurrentRecord == a.lCurrentRecord && e.hints == a.hints && e.stmts == a.stmts
    ensures SkipLoop(t, a, q, steps) == SkipLoop(t, e, q, steps - Ahead(a.list, q))
  {
    hide Order, OnWindow, SkipLoop;
    e := Advanced(a, q, Ahead(a.list, q));
    LoopInside(t, f, a, q, Turn(f, q, k), Ahead(a.list, q), steps);
    AdvancedAt(f, a, q, k, Ahead(a.list, q));
    AdvancedToEdge(a, q);
  }

  lemma AdvancedToEdge(a: Area, q: Direction)
    ensures var e := Advanced(a, q, Ahead(a.list, q));
            Ahead(e.list, q) == 0 && e.lCurrentRecord == a.lCurrentRecord && e.hints == a.hints && e.stmts == a.stmts
  {
  }

  /** `m` steps around a ring of `w` rows. */
  function Around(m: nat, w: nat): (r: nat)
    requires w > 0
    ensures r < w
  {
    if m < w then m else Around(m - w, w)
  }

  lemma {:induction false} AroundAtMost(m: nat, w: nat)
    requires w > 0
    ensures Around(m, w) <= m && (Around(m, w) == m <==> m < w)
    decreases m
  {
    if m >= w { AroundAtMost(m - w, w); }
  }

  lemma SameStops(t: Table, f: seq<nat>, q: Direction, k: nat, w: nat, g: Hints, h: Hints)
    requires TableOk(t) && Order(t, f) && w > 0 && (t.columns == 1 || g == h)
    ensures EdgeStops(t, f, q, k, k + w, g) <==> EdgeStops(t, f, q, k, k + w, h)
  {
    hide TableOk, Order, Shares;
    VisitsCount(t, f, q);
    if t.columns == 1 && k + w < |f| { SharesIs(t, q, k, k + w); }
  }

  lemma StopsAtTheEdge(t: Table, f: seq<nat>, e: Area, q: Direction, k: nat, stale: nat, steps: nat)
    requires TableOk(t) && Order(t, f) && |f| != EDGE_LIST_SIZE && t.source != Synthetic
    requires stale < k && ClearAt(f, e, q, k) && Ahead(e.list, q) == 0 && e.lCurrentRecord == At(f, q, stale)
    requires EdgeStops(t, f, q, stale, k, e.hints) && steps > 0
    ensures RanOutLook(t, f, SkipLoop(t, e, q, steps), q)
  {
    EdgeRunsOut(t, f, e, q, k, stale);
    RanOutStops(t, f, e, q, steps);
  }

  lemma RestartsAtTheEdge(t: Table, f: seq<nat>, e: Area, q: Direction, k: nat, stale: nat, steps: nat) returns (c: Area)
    requires TableOk(t) && Order(t, f) && LimitSuffices(t) && t.source != Synthetic
    requires stale <= k && stale + 1 < |f| && ClearAt(f, e, q, k) && Ahead(e.list, q) == 0
    requires e.lCurrentRecord == At(f, q, stale) && steps > 0
    requires stale == k || !EdgeStops(t, f, q, stale, k, e.hints)
    ensures Restarted(t, f, c, q, stale, NextSize(t, q, stale), ReadHints(e, q))
    ensures SkipLoop(t, e, q, steps) == SkipLoop(t, c, q, steps - 1)
  {
    EdgeRestarts(t, f, e, q, k, stale);
    c := SkipRaw(t, e, q);
    RestartedGoesOn(t, f, c, q, stale, NextSize(t, q, stale), ReadHints(e, q));
    LoopOn(t, e, c, q, steps);
  }

  lemma RestartedGoesOn(t: Table, f: seq<nat>, c: Area, q: Direction, k: nat, w: nat, h: Hints)
    requires Restarted(t, f, c, q, k, w, h)
    ensures !Stops(c) && ClearAt(f, c, q, k + 1) && c.lCurrentRecord == At(f, q, k) && !MustPrepare(c.stmts, q)
    ensures w > 0 ==> Ahead(c.list, q) == w - 1
    ensures t.columns == 1 || c.hints == h
  {
  }

  lemma AroundStops(t: Table, f: seq<nat>, b: Area, q: Direction, k: nat, w: nat, h: Hints, m: nat)
    requires TableOk(t) && Order(t, f) && |f| != EDGE_LIST_SIZE && t.source != Synthetic
    requires m >= w > 0 && Restarted(t, f, b, q, k, w, h) && EdgeStops(t, f, q, k, k + w, h)
    ensures RanOutLook(t, f, SkipLoop(t, b, q, m), q)
  {
    hide TableOk, Order, LimitSuffices, OnWindow, SkipLoop, Shares, RanOutLook, EdgeStops, ClearAt;
    RestartedGoesOn(t, f, b, q, k, w, h);
    SameStops(t, f, q, k, w, b.hints, h);
    var e := ToTheEdge(t, f, b, q, k + 1, m);
    StopsAtTheEdge(t, f, e, q, k + w, k, m - w + 1);
  }

  lemma AroundAgain(t: Table, f: seq<nat>, b: Area, q: Direction, k: nat, w: nat, h: Hints, m: nat) returns (c: Area)
    requires TableOk(t) && Order(t, f) && LimitSuffices(t) && t.source != Synthetic
    requires m >= w == NextSize(t, q, k) > 0 && Restarted(t, f, b, q, k, w, h) && !EdgeStops(t, f, q, k, k + w, h)
    ensures Restarted(t, f, c, q, k, w, h)
    ensures SkipLoop(t, b, q, m) == SkipLoop(t, c, q, m - w)
  {
    hide TableOk, Order, LimitSuffices, OnWindow, SkipLoop, Shares, NextSize, ClearAt, EdgeStops;
    RestartedGoesOn(t, f, b, q, k, w, h);
    SameStops(t, f, q, k, w, b.hints, h);
    var e := ToTheEdge(t, f, b, q, k + 1, m);
    c := RestartsAtTheEdge(t, f, e, q, k + w, k, m - w + 1);
  }

  /** A window that begins after row `k`, with the number of row `k`: from its edge a step runs out or comes back to
      its beginning. */
  lemma {:induction false} LoopAround(t: Table, f: seq<nat>, b: Area, q: Direction, k: nat, w: nat, h: Hints, m: nat)
    requires TableOk(t) && Order(t, f) && LimitSuffices(t) && |f| != EDGE_LIST_SIZE && t.source != Synthetic
    requires w == NextSize(t, q, k) > 0 && Restarted(t, f, b, q, k, w, h)
    ensures Comes(t, f, SkipLoop(t, b, q, m), q, m >= w && EdgeStops(t, f, q, k, k + w, h), k + 1 + Around(m, w))
    decreases m
  {
    hide TableOk, Order, LimitSuffices, OnWindow, SkipLoop, Shares, Restarted, NextSize, EdgeStops, Clear, RanOutLook;
    if m < w {
      RestartedGoesOn(t, f, b, q, k, w, h);
      ComesInside(t, f, b, q, k + 1, m);
    } else if EdgeStops(t, f, q, k, k + w, h) {
      AroundStops(t, f, b, q, k, w, h, m);
    } else {
      var c := AroundAgain(t, f, b, q, k, w, h, m);
      LoopAround(t, f, c, q, k, w, h, m - w);
    }
  }

  lemma SteppedRunsOut(t: Table, f: seq<nat>, b: Area, lastRec: nat, q: Direction, i: nat)
    requires i < |f| && Stepped(t, f, b, lastRec, q, i) && Turn(f, q, i) + 1 == |f|
    ensures RanOutLook(t, f, b, q)
  {
    if q == Backward { OnWindowHere(f, b.list, i); }
  }

  lemma ReachesNothing(t: Table, f: seq<nat>, a: Area, q: Direction, i: nat, steps: nat)
    requires TableOk(t) && Order(t, f) && LimitSuffices(t) && OnWindow(f, a.list, a.hints, i) && Ready(f, a, i)
    requires Turn(f, q, i) + 1 == |f| && steps > 0
    ensures RanOutLook(t, f, SkipLoop(t, a, q, steps), q)
  {
    RawSkipSteps(t, f, a, q, i);
    SteppedRunsOut(t, f, SkipRaw(t, a, q), a.flags.lLastRec, q, i);
    RanOutStops(t, f, a, q, steps);
  }

  /** How many rows a skip from row `k` can go: those the window still has or, at its edge, those of the next window. */
  function Reach(t: Table, l: RecordList, q: Direction, k: nat): nat
  {
    if Ahead(l, q) > 0 then Ahead(l, q) else NextSize(t, q, k)
  }

  /** Whether a skip of `steps` rows from row `k` runs out: at the edge of the window, or at that of the window which a read
      at that edge brings. */
  predicate RunsOut(t: Table, f: seq<nat>, a: Area, q: Direction, k: nat, steps: nat)
  {
    var ahead, next := Ahead(a.list, q), NextSize(t, q, k);
    || k + 1 >= |f|
    || (steps > ahead > 0 && EdgeStops(t, f, q, k, k + ahead, a.hints))
    || (steps > ahead + next && EdgeStops(t, f, q, k, k + next, ReadHints(a, q)))
  }

  /** How many rows further a skip of `steps` rows from row `k` is when it does not run out: beyond the window it goes round
      the rows that a read with the number of row `k` brings. */
  function Further(t: Table, l: RecordList, q: Direction, k: nat, steps: nat): nat
  {
    if steps <= Ahead(l, q) || NextSize(t, q, k) == 0 then steps
    else 1 + Around(steps - Ahead(l, q) - 1, NextSize(t, q, k))
  }

  lemma LoopComes(t: Table, f: seq<nat>, a: Area, q: Direction, k: nat, steps: nat)
    requires TableOk(t) && Order(t, f) && LimitSuffices(t) && |f| != EDGE_LIST_SIZE && t.source != Synthetic && steps > 0
    requires ClearAt(f, a, q, k) && a.lCurrentRecord == At(f, q, k)
    ensures Comes(t, f, SkipLoop(t, a, q, steps), q, RunsOut(t, f, a, q, k, steps), k + Further(t, a.list, q, k, steps))
  {
    hide TableOk, Order, LimitSuffices, OnWindow, SkipLoop, Shares, RanOutLook, NextSize, EdgeStops;
    var ahead := Ahead(a.list, q);
    if k + 1 == |f| {
      ReachesNothing(t, f, a, q, Turn(f, q, k), steps);
    } else if steps <= ahead {
      ComesInside(t, f, a, q, k, steps);
    } else if ahead > 0 && EdgeStops(t, f, q, k, k + ahead, a.hints) {
      var e := ToTheEdge(t, f, a, q, k, steps);
      StopsAtTheEdge(t, f, e, q, k + ahead, k, steps - ahead);
    } else {
      ComesAround(t, f, a, q, k, steps);
    }
  }

  lemma ComesAround(t: Table, f: seq<nat>, a: Area, q: Direction, k: nat, steps: nat)
    requires TableOk(t) && Order(t, f) && LimitSuffices(t) && |f| != EDGE_LIST_SIZE && t.source != Synthetic
    requires k + 1 < |f| && ClearAt(f, a, q, k) && a.lCurrentRecord == At(f, q, k) && steps > Ahead(a.list, q)
    requires Ahead(a.list, q) > 0 ==> !EdgeStops(t, f, q, k, k + Ahead(a.list, q), a.hints)
    ensures Comes(t, f, SkipLoop(t, a, q, steps), q, RunsOut(t, f, a, q, k, steps), k + Further(t, a.list, q, k, steps))
  {
    hide TableOk, Order, LimitSuffices, OnWindow, SkipLoop, Shares, RanOutLook, EdgeStops, Restarted, Comes;
    var ahead, w, h := Ahead(a.list, q), NextSize(t, q, k), ReadHints(a, q);
    VisitsCount(t, f, q);
    NextSizeIs(t, q, k);
    var e := ToTheEdge(t, f, a, q, k, steps);
    var c := RestartsAtTheEdge(t, f, e, q, k + ahead, k, steps - ahead);
    LoopAround(t, f, c, q, k, w, h, steps - ahead - 1);
  }

  lemma LoopOn(t: Table, a: Area, b: Area, q: Direction, steps: nat)
    requires b == SkipRaw(t, a, q) && !Stops(b) && steps > 0
    ensures SkipLoop(t, a, q, steps) == SkipLoop(t, b, q, steps - 1)
  {
    RepeatOn(Step(t, q), a, steps);
  }

  lemma RanOutSeen(t: Table, f: seq<nat>, b: Area, q: Direction)
    requires Order(t, f) && |f| > 0 && RanOutLook(t, f, b, q)
    ensures Look(SkipEnd(b, q)) == if q == Forward then Seen(t.recCount + 1, false, true, true) else Seen(f[0], true, false, true)
  {
  }

  lemma RowSeen(f: seq<nat>, b: Area, q: Direction, i: nat)
    requires i < |f| && WindowOn(f, b.list, i) && b.flags == Flags(false, false, false, false, true, b.flags.lLastRec)
    ensures Look(SkipEnd(b, q)) == Seen(f[i], false, false, true)
  {
    OnWindowHere(f, b.list, i);
  }

  /** Where a skip of `n` rows goes from row `i`, when the record number is taken once. */
  lemma SkipManyLands(t: Table, f: seq<nat>, a: Area, i: nat, bof: bool, n: int)
    requires TableOk(t) && Order(t, f) && WindowWorks(t) && t.source != Synthetic
    requires Simulates(t, f, a, P.OnRow(i, bof)) && n != 0
    ensures var q := DirectionOf(n);
            var k := Turn(f, q, i);
            var j := k + Further(t, a.list, q, k, Count(n));
            if RunsOut(t, f, a, q, k, Count(n)) then
              Look(Skip(t, a, n)) == if n > 0 then Seen(t.recCount + 1, false, true, true) else Seen(f[0], true, false, true)
            else
              j < |f| && Look(Skip(t, a, n)) == Seen(At(f, q, j), false, false, true)
  {
    hide TableOk, Order, LimitSuffices, OnWindow, SkipLoop, Shares, EdgeStops, NextSize, Further, RanOutLook, SkipEnd, Ahead, MustPrepare;
    StandsOn(t, f, a, i, bof);
    var q := DirectionOf(n);
    var k := Turn(f, q, i);
    VisitsCount(t, f, q);
    SkipIs(t, a, n);
    SkipStartsReady(t, f, a, i, bof);
    LoopComes(t, f, SkipStart(a), q, k, Count(n));
    ComesLook(t, f, SkipLoop(t, SkipStart(a), q, Count(n)), q, RunsOut(t, f, a, q, k, Count(n)),
              k + Further(t, a.list, q, k, Count(n)));
  }

  lemma StandsOn(t: Table, f: seq<nat>, a: Area, i: nat, bof: bool)
    requires Simulates(t, f, a, P.OnRow(i, bof))
    ensures i < |f|
  {
  }

  lemma ComesLook(t: Table, f: seq<nat>, b: Area, q: Direction, out: bool, j: nat)
    requires Order(t, f) && |f| > 0 && Comes(t, f, b, q, out, j)
    ensures out ==> Look(SkipEnd(b, q)) == if q == Forward then Seen(t.recCount + 1, false, true, true) else Seen(f[0], true, false, true)
    ensures !out ==> j < |f| && Look(SkipEnd(b, q)) == Seen(At(f, q, j), false, false, true)
  {
    if out {
      RanOutSeen(t, f, b, q);
    } else {
      RowSeen(f, b, q, Turn(f, q, j));
    }
  }

  lemma FurtherIs(t: Table, l: RecordList, q: Direction, k: nat, steps: nat)
    requires NextSize(t, q, k) > 0 && steps > 0
    ensures Further(t, l, q, k, steps) <= steps
    ensures Further(t, l, q, k, steps) == steps <==> steps <= Reach(t, l, q, k)
  {
    var m, w := steps - Ahead(l, q) - 1, NextSize(t, q, k);
    if m >= 0 {
      AroundAtMost(m, w);
    }
  }

  /** A skip of `n` rows shows what it should exactly when it stays within reach, or leaves the table and runs out. */
  lemma SkipManyExactly(t: Table, f: seq<nat>, a: Area, i: nat, bof: bool, n: int)
    requires TableOk(t) && Order(t, f) && WindowWorks(t) && t.source != Synthetic
    requires Simulates(t, f, a, P.OnRow(i, bof)) && n != 0
    ensures Look(Skip(t, a, n)) == P.PlainLook(t, P.PlainSkipFrom(|f|, i, n))
       <==> if 0 <= i + n < |f| then Count(n) <= Reach(t, a.list, DirectionOf(n), Turn(f, DirectionOf(n), i))
            else RunsOut(t, f, a, DirectionOf(n), Turn(f, DirectionOf(n), i), Count(n))
  {
    hide TableOk, Order, LimitSuffices, SkipLoop, Shares, SkipRaw, EdgeStops, HintsSound, EndsKnown;
    var q := DirectionOf(n);
    var k := Turn(f, q, i);
    SkipManyLands(t, f, a, i, bof, n);
    PlainLooks(t, f, i, n);
    VisitsCount(t, f, q);
    if k + 1 < |f| {
      NextSizeIs(t, q, k);
      FurtherIs(t, a.list, q, k, Count(n));
      if 0 <= i + n < |f| && !RunsOut(t, f, a, q, k, Count(n)) {
        RightRow(t, f, q, k, i, n, Further(t, a.list, q, k, Count(n)));
      }
    }
  }

  lemma PlainLooks(t: Table, f: seq<nat>, i: nat, n: int)
    requires Order(t, f) && i < |f| && n != 0
    ensures P.PlainLook(t, P.PlainSkipFrom(|f|, i, n))
         == if 0 <= i + n < |f| then Seen(f[i + n], false, false, true)
            else if n > 0 then Seen(t.recCount + 1, false, true, true)
            else Seen(f[0], true, false, true)
  {
  }

  lemma RightRow(t: Table, f: seq<nat>, q: Direction, k: nat, i: nat, n: int, further: nat)
    requires Order(t, f) && i < |f| && q == DirectionOf(n) && k == Turn(f, q, i) && n != 0 && 0 <= i + n < |f|
    requires k + further < |f|
    ensures At(f, q, k + further) == f[i + n] <==> further == Count(n)
  {
    assert f[i + n] == At(f, q, k + Count(n));
    if further != Count(n) { AtDiffers(f, q, k + further, k + Count(n)); }
  }

  // ---------------------------------------------------------------- after GoTop

  /** Whether a skip of `n` rows from the first row after GoTop runs out. */
  predicate RunsOutFromTop(t: Table, n: int)
  {
    || |t.data| < EDGE_LIST_SIZE
    || !Shares(t, Forward, 0, EDGE_LIST_SIZE - 1)
    || (n >= EDGE_LIST_SIZE + NextSize(t, Forward, 0) && !Shares(t, Forward, 0, NextSize(t, Forward, 0)))
  }

  /** Right after GoTop, a skip forward reaches the rows that GoTop read; beyond the end it runs out when the last of these
      rows is known for the last one, or when it or the last one of the next window has another first index column. */
  lemma SkipFromTopExactly(t: Table, a: Area, n: int)
    requires TableOk(t) && WindowWorks(t) && t.source != Synthetic && Opened(a) && n > 0
    ensures Run(t, a, [GoTop, SkipBy(n)]) == P.PlainRun(t, P.Fresh, [GoTop, SkipBy(n)])
       <==> if n < |t.data| then n < EDGE_LIST_SIZE else RunsOutFromTop(t, n)
  {
    OrderHolds(t);
    var f := Numbers(t);
    var b := GoEdge(t, a, Forward);
    EdgeSimulates(t, f, a, P.Fresh, Forward);
    SameLook(t, f, b, P.OnRow(0, false));
    TopList(t, f, a);
    SkipManyExactly(t, f, b, 0, false, n);
    TopRunsOut(t, f, b, n);
    TwoMoves(t, a, b, n);
    PlainTwoMoves(t, f, n);
  }

  lemma TopRunsOut(t: Table, f: seq<nat>, b: Area, n: int)
    requires TableOk(t) && Order(t, f) && WindowWorks(t) && n > 0
    requires b.list.size == Min(EDGE_LIST_SIZE, |f|) && b.list.pos == 0 && b.list.direction == Forward
    requires b.hints.lEofAt == (if |f| < EDGE_LIST_SIZE then f[|f| - 1] else 0) && b.stmts.orderChanged
    ensures n >= |f| ==> (RunsOut(t, f, b, Forward, 0, n) <==> RunsOutFromTop(t, n))
    ensures n < |f| ==> (n <= Reach(t, b.list, Forward, 0) <==> n < EDGE_LIST_SIZE)
  {
    if |f| > 1 { NextSizeIs(t, Forward, 0); }
  }

  lemma TopList(t: Table, f: seq<nat>, a: Area)
    requires Order(t, f) && |f| > 0 && Opened(a)
    ensures var l := GoEdge(t, a, Forward).list;
            l.size == Min(EDGE_LIST_SIZE, |f|) && l.pos == 0 && l.direction == Forward
    ensures |f| != EDGE_LIST_SIZE ==>
              GoEdge(t, a, Forward).hints.lEofAt == if |f| < EDGE_LIST_SIZE then f[|f| - 1] else 0
    ensures GoEdge(t, a, Forward).stmts == a.stmts
  {
    EdgePageRows(t, f, Forward);
    StoredEdge(f, Forward, a, EdgePage(t, Forward));
  }

  lemma TwoMoves(t: Table, a: Area, b: Area, n: int)
    requires b == GoEdge(t, a, Forward)
    ensures Run(t, a, [GoTop, SkipBy(n)]) == [Look(b), Look(Skip(t, b, n))]
  {
    var moves := [GoTop, SkipBy(n)];
    assert moves[1..] == [SkipBy(n)] && [SkipBy(n)][1..] == [];
    assert Run(t, Do(t, b, SkipBy(n)), []) == [];
    assert Run(t, b, [SkipBy(n)]) == [Look(Skip(t, b, n))];
  }

  lemma PlainTwoMoves(t: Table, f: seq<nat>, n: int)
    requires f == Numbers(t) && |f| > 0 && n > 0
    ensures P.PlainRun(t, P.Fresh, [GoTop, SkipBy(n)])
         == [P.PlainLook(t, P.OnRow(0, false)), P.PlainLook(t, P.PlainSkipFrom(|f|, 0, n))]
  {
    var moves := [GoTop, SkipBy(n)];
    assert moves[1..] == [SkipBy(n)] && [SkipBy(n)][1..] == [];
    assert P.PlainDo(t, P.Fresh, GoTop) == P.OnRow(0, false);
    assert P.PlainRun(t, P.OnRow(0, false), [SkipBy(n)]) == [P.PlainLook(t, P.PlainSkipFrom(|f|, 0, n))];
  }

  // ---------------------------------------------------------------- when the record number is taken again

  lemma EdgeRecord(t: Table, a: Area, d: Direction)
    ensures GoEdge(t, a, d).lCurrentRecord == a.lCurrentRecord
  {
  }

  lemma ReadRecord(t: Table, c: Area, q: Direction, page: seq<Row>)
    ensures ReadPage(t, c, q, page).lCurrentRecord == c.lCurrentRecord
  {
    EdgeRecord(t, c, Forward);
  }

  /** A step takes the number of its own row or keeps the one it has. */
  lemma RawRecord(t: Table, a: Area, q: Direction)
    requires a.lCurrentRecord != a.flags.lLastRec && !a.flags.fEof
    requires SkipOnCache(t, a, q).0 || SkipOnCache(t, a, q).1 == a
    ensures SkipRaw(t, a, q).lCurrentRecord == a.lCurrentRecord || SkipRaw(t, a, q).lCurrentRecord == Here(a.list)
  {
    if SkipOnCache(t, a, q).0 {
      assert SkipOnCache(t, a, q).1.lCurrentRecord == a.lCurrentRecord;
    } else {
      RefillRecord(t, SkipOnCache(t, a, q).1, q);
    }
  }

  lemma RefillRecord(t: Table, a: Area, q: Direction)
    requires !a.flags.fEof
    ensures Refill(t, a, q).lCurrentRecord == a.lCurrentRecord || Refill(t, a, q).lCurrentRecord == Here(a.list)
  {
    var c := Fed(t, a, q);
    ReadRecord(t, c, q, SkipPage(t, q, BoundKey(t, c)));
  }

  /** Where `steps` rows in direction `q` lead from row `i`. */
  function Target(f: seq<nat>, q: Direction, i: nat, steps: nat): P.Plain
    requires i < |f|
  {
    if Turn(f, q, i) + steps < |f| then P.OnRow(Turn(f, q, Turn(f, q, i) + steps), false)
    else if q == Forward then P.Phantom(false)
    else P.OnRow(0, true)
  }

  lemma SteppedEnds(t: Table, f: seq<nat>, b: Area, lastRec: nat, q: Direction, i: nat)
    requires i < |f| && Stepped(t, f, b, lastRec, q, i) && (lastRec == 0 || lastRec == t.recCount + 1)
    ensures Simulates(t, f, SkipEnd(b, q), Target(f, q, i, 1))
    ensures Stops(b) <==> Turn(f, q, i) + 1 == |f|
    ensures !Stops(b) ==> b.flags.lLastRec == lastRec
  {
  }

  /** A step that can be repeated with the number of its own row. */
  ghost predicate OwnReady(t: Table, f: seq<nat>, a: Area, i: nat)
  {
    && t.source == Synthetic && OnWindow(f, a.list, a.hints, i) && ReadyToFeed(t, f, a, i)
    && (a.flags.lLastRec == 0 || a.flags.lLastRec == t.recCount + 1)
  }

  lemma OwnStep(t: Table, f: seq<nat>, a: Area, q: Direction, i: nat)
    requires TableOk(t) && Order(t, f) && LimitSuffices(t) && OwnReady(t, f, a, i)
    ensures Simulates(t, f, SkipEnd(SkipRaw(t, a, q), q), Target(f, q, i, 1))
    ensures Stops(SkipRaw(t, a, q)) <==> Turn(f, q, i) + 1 == |f|
  {
    RawSkipSteps(t, f, a, q, i);
    SteppedEnds(t, f, SkipRaw(t, a, q), a.flags.lLastRec, q, i);
  }

  lemma OwnNext(t: Table, f: seq<nat>, a: Area, q: Direction, i: nat)
    requires TableOk(t) && Order(t, f) && LimitSuffices(t) && OwnReady(t, f, a, i) && Turn(f, q, i) + 1 < |f|
    ensures OwnReady(t, f, SkipRaw(t, a, q), Turn(f, q, Turn(f, q, i) + 1))
  {
    RawSkipSteps(t, f, a, q, i);
    OnWindowHere(f, a.list, i);
    OwnRecord(t, f, a, q, i);
  }

  lemma OwnRecord(t: Table, f: seq<nat>, a: Area, q: Direction, i: nat)
    requires Order(t, f) && OwnReady(t, f, a, i)
    ensures SkipRaw(t, a, q).lCurrentRecord != a.flags.lLastRec
  {
    OnWindowHere(f, a.list, i);
    OwnOnCache(t, f, a, q, i);
    RawRecord(t, a, q);
  }

  lemma OwnOnCache(t: Table, f: seq<nat>, a: Area, q: Direction, i: nat)
    requires Order(t, f) && OwnReady(t, f, a, i)
    ensures SkipOnCache(t, a, q).0 || SkipOnCache(t, a, q).1 == a
  {
    if !SkipOnCache(t, a, q).0 { CacheMisses(t, f, a, q, i); }
  }

  lemma SameTarget(f: seq<nat>, q: Direction, i: nat, further: nat)
    requires i < |f| && Turn(f, q, i) + 1 < |f|
    ensures Target(f, q, Turn(f, q, Turn(f, q, i) + 1), further) == Target(f, q, i, further + 1)
  {
  }

  lemma OwnFirst(t: Table, f: seq<nat>, a: Area, q: Direction, i: nat, steps: nat)
    requires TableOk(t) && Order(t, f) && LimitSuffices(t) && OwnReady(t, f, a, i) && steps > 0
    requires Turn(f, q, i) + 1 == |f| || steps == 1
    ensures Simulates(t, f, SkipEnd(SkipLoop(t, a, q, steps), q), Target(f, q, i, steps))
  {
    OwnStep(t, f, a, q, i);
    if steps == 1 {
      SkipOne(t, a, q);
    } else {
      RepeatStops(Step(t, q), a, steps);
    }
  }

  lemma OwnFurther(t: Table, f: seq<nat>, a: Area, b: Area, q: Direction, i: nat, steps: nat, further: nat)
    requires i < |f| && Turn(f, q, i) + 1 < |f| && b == SkipRaw(t, a, q) && !Stops(b) && further + 1 == steps
    requires Simulates(t, f, SkipEnd(SkipLoop(t, b, q, further), q), Target(f, q, Turn(f, q, Turn(f, q, i) + 1), further))
    ensures Simulates(t, f, SkipEnd(SkipLoop(t, a, q, steps), q), Target(f, q, i, steps))
  {
    hide SkipLoop, SkipRaw, OnWindow, PhantomOk, SkipEnd;
    SameTarget(f, q, i, further);
    LoopOn(t, a, b, q, steps);
  }

  lemma {:induction false} LoopWithOwnRecord(t: Table, f: seq<nat>, a: Area, q: Direction, i: nat, steps: nat)
    requires TableOk(t) && Order(t, f) && LimitSuffices(t) && OwnReady(t, f, a, i) && steps > 0
    ensures Simulates(t, f, SkipEnd(SkipLoop(t, a, q, steps), q), Target(f, q, i, steps))
    decreases steps
  {
    if Turn(f, q, i) + 1 == |f| || steps == 1 {
      OwnFirst(t, f, a, q, i, steps);
    } else {
      var b, further: nat :| b == SkipRaw(t, a, q) && further + 1 == steps;
      OwnStep(t, f, a, q, i);
      OwnNext(t, f, a, q, i);
      LoopWithOwnRecord(t, f, b, q, Turn(f, q, Turn(f, q, i) + 1), further);
      OwnFurther(t, f, a, b, q, i, steps, further);
    }
  }

  lemma TargetIsPlain(f: seq<nat>, i: nat, n: int)
    requires i < |f| && n != 0
    ensures Target(f, DirectionOf(n), i, Count(n)) == P.PlainSkipFrom(|f|, i, n)
  {
  }

  lemma StartsOwn(t: Table, f: seq<nat>, a: Area, i: nat, bof: bool)
    requires Order(t, f) && t.source == Synthetic && Simulates(t, f, a, P.OnRow(i, bof))
    ensures OwnReady(t, f, SkipStart(a), i)
  {
    SkipStartsReady(t, f, a, i, bof);
  }

  /** When an index column is asked from the database at every read, so that the current record number is taken again,
      skips of any number of rows from a row go where they should. */
  lemma SkipManyWithOwnRecord(t: Table, f: seq<nat>, a: Area, i: nat, bof: bool, n: int)
    requires TableOk(t) && Order(t, f) && LimitSuffices(t) && t.source == Synthetic
    requires Simulates(t, f, a, P.OnRow(i, bof)) && n != 0
    ensures Simulates(t, f, Skip(t, a, n), P.PlainSkipFrom(|f|, i, n))
  {
    SkipIs(t, a, n);
    StartsOwn(t, f, a, i, bof);
    LoopWithOwnRecord(t, f, SkipStart(a), DirectionOf(n), i, Count(n));
    TargetIsPlain(f, i, n);
  }

  // ---------------------------------------------------------------- GoTo(0)

  /** GoTo(0) leaves the window on row `i`, and a single skip starts from there. Back it goes to the last row, as it should.
      Forward it stays on the phantom record, as it should, exactly when row `i` is the last one, or the window has no row
      after it and the record number is not taken again. */
  lemma GoToZeroExactly(t: Table, f: seq<nat>, a: Area, i: nat, bof: bool, n: int)
    requires TableOk(t) && Order(t, f) && WindowWorks(t) && Simulates(t, f, a, P.OnRow(i, bof)) && (n == 1 || n == -1)
    ensures Look(GoTo(t, a, 0)) == P.PlainLook(t, P.Phantom(true))
    ensures Look(Skip(t, GoTo(t, a, 0), n)) == P.PlainLook(t, P.PlainSkip(|f|, P.Phantom(true), n))
       <==> n == -1 || i + 1 == |f| || (Ahead(a.list, Forward) == 0 && t.source != Synthetic)
  {
    hide TableOk, Order, LimitSuffices, OnWindow, SkipRaw, SkipEnd;
    StandsOn(t, f, a, i, bof);
    VisitsCount(t, f, Forward);
    var b := GoTo(t, a, 0);
    SkipFromIs(t, b, n);
    var c := SkipStart(b);
    assert ZeroReady(t, f, c, i);
    PlainFromPhantom(|f|, true, n);
    if n == -1 {
      ZeroBack(t, f, c, i);
      SameLook(t, f, SkipEnd(SkipRaw(t, c, Backward), Backward), P.OnRow(|f| - 1, false));
    } else if Ahead(a.list, Forward) > 0 {
      ZeroInside(t, f, c, i);
    } else {
      ZeroAtEdge(t, f, c, i);
    }
  }

  /** Where a skip starts after GoTo(0): the window on row `i`, with the phantom record and its number. */
  ghost predicate ZeroReady(t: Table, f: seq<nat>, c: Area, i: nat)
  {
    && OnWindow(f, c.list, c.hints, i) && c.lCurrentRecord == t.recCount + 1
    && c.flags == Flags(false, false, true, false, true, t.recCount + 1)
  }

  lemma ZeroBack(t: Table, f: seq<nat>, c: Area, i: nat)
    requires Order(t, f) && |f| > 0 && |f| != EDGE_LIST_SIZE && ZeroReady(t, f, c, i)
    ensures Simulates(t, f, SkipEnd(SkipRaw(t, c, Backward), Backward), P.OnRow(|f| - 1, false))
  {
    hide Order, SkipEnd, Simulates;
    GoEdgeLands(t, f, c, i, Backward);
    assert SkipRaw(t, c, Backward) == GoEdge(t, c, Backward);
    LandedOnLast(t, f, GoEdge(t, c, Backward));
  }

  lemma ZeroInside(t: Table, f: seq<nat>, c: Area, i: nat)
    requires Order(t, f) && ZeroReady(t, f, c, i) && Ahead(c.list, Forward) > 0
    ensures i + 1 < |f| && !Look(SkipEnd(SkipRaw(t, c, Forward), Forward)).eof
  {
    SlotExists(t, f, c.list, i, Supposed(c.list, Forward));
  }

  /** At the edge of the window the record is the phantom record again, or the row after row `i`. */
  lemma ZeroAtEdge(t: Table, f: seq<nat>, c: Area, i: nat)
    requires TableOk(t) && Order(t, f) && LimitSuffices(t) && ZeroReady(t, f, c, i) && Ahead(c.list, Forward) == 0
    ensures var seen := Look(SkipEnd(SkipRaw(t, c, Forward), Forward));
            if i + 1 == |f| || t.source != Synthetic then seen == Seen(t.recCount + 1, false, true, true) else !seen.eof
  {
    hide TableOk, LimitSuffices;
    assert f[i] in f;
    OnWindowHere(f, c.list, i);
    if SkipOnCache(t, c, Forward).0 {
      KnowsTheEnd(f, c.list, c.hints, Forward, i);
    } else {
      CacheMisses(t, f, c, Forward, i);
      ZeroRefill(t, f, c, i);
    }
  }

  lemma ZeroRefill(t: Table, f: seq<nat>, c: Area, i: nat)
    requires TableOk(t) && Order(t, f) && LimitSuffices(t) && ZeroReady(t, f, c, i)
    ensures var g := Refill(t, c, Forward).flags;
            if i + 1 == |f| || t.source != Synthetic then g == Flags(false, true, true, false, true, t.recCount + 1)
            else !g.fEof && g.ok
  {
    hide LimitSuffices, IsSkipPage, ReadPage;
    var d := Fed(t, c, Forward);
    OnWindowHere(f, c.list, i);
    var page := SkipPage(t, Forward, BoundKey(t, d));
    if t.source != Synthetic {
      assert t.recCount + 1 !in f;
      NotInPage(t, f, Forward, BoundKey(t, d), d.lCurrentRecord);
      ReadPageGone(t, d, Forward, page);
    } else {
      BoundKeyIs(t, f, d, Forward, i);
      PageOfSkip(t, f, Forward, i);
      ZeroReads(t, f, d, i, FirstSharing(Visits(t, Forward), i), page);
    }
  }

  lemma ZeroReads(t: Table, f: seq<nat>, d: Area, i: nat, from: nat, page: seq<Row>)
    requires Order(t, f) && LimitSuffices(t) && i < |f| == |Visits(t, Forward)| && from == FirstSharing(Visits(t, Forward), i)
    requires IsSkipPage(f, Forward, from, LimitsRows(t.db), page) && d.lCurrentRecord == f[i] && |d.list.slots| == RECORD_LIST_SIZE
    requires d.flags == Flags(false, false, true, false, true, t.recCount + 1)
    ensures var g := ReadPage(t, d, Forward, page).flags;
            if i + 1 == |f| then g == Flags(false, true, true, false, true, t.recCount + 1) else !g.fEof && g.ok
  {
    if LimitsRows(t.db) { LimitKeepsNext(t, Forward, i); }
    FoundInPage(f, Forward, from, LimitsRows(t.db), page, i);
    if i + 1 == |f| {
      ReadPageEmpty(t, d, Forward, page);
    } else {
      ReadPageFound(t, d, Forward, page, i - from);
      var rest := page[i - from + 1..];
      assert rest[0].recno == At(f, Forward, i + 1) && f[i + 1] in f;
    }
  }
}
