/** Whole runs: what a program sees through the window is what it sees through the plain cursor. */
module Runs {
  import opened IndexOrder
  import opened Dialects
  import opened Cursor
  import opened Refinement
  import opened Stepping
  import P = PlainCursor

  // ---------------------------------------------------------------- steps from the phantom record

  lemma NotInPage(t: Table, f: seq<nat>, q: Direction, key: Key, recno: nat)
    requires Order(t, f) && Listed(t) && recno !in f
    ensures RowIndex(SkipPage(t, q, key), recno) == |SkipPage(t, q, key)|
  {
    var page := SkipPage(t, q, key);
    var i := RowIndex(page, recno);
    if i < |page| {
      SelectsStored(t.data, SkipWhere(1, Ascending(t, q), key), Ascending(t, q), ResultSetLimit(t.db, RECORD_LIST_SIZE), page[i]);
      assert Exists(t, recno);
    }
  }

  ghost predicate PhantomReady(t: Table, f: seq<nat>, a: Area)
  {
    && PhantomOk(t, f, a) && a.lCurrentRecord == t.recCount + 1
    && a.flags == Flags(false, false, true, false, true, t.recCount + 1)
  }

  lemma PhantomStays(t: Table, f: seq<nat>, a: Area)
    requires TableOk(t) && Order(t, f) && PhantomReady(t, f, a)
    ensures PhantomOk(t, f, SkipRaw(t, a, Forward))
    ensures SkipRaw(t, a, Forward).flags == Flags(false, true, true, false, true, t.recCount + 1)
  {
    if OnNothing(f, a.list) {
      assert !SkipOnCache(t, a, Forward).0;
      PhantomRefill(t, f, a);
    } else {
      OnWindowHere(f, a.list, |f| - 1);
      assert SkipOnCache(t, a, Forward).0;
    }
  }

  lemma PhantomRefill(t: Table, f: seq<nat>, a: Area)
    requires TableOk(t) && Order(t, f) && PhantomReady(t, f, a) && OnNothing(f, a.list)
    ensures PhantomOk(t, f, Refill(t, a, Forward))
    ensures Refill(t, a, Forward).flags == Flags(false, true, true, false, true, t.recCount + 1)
  {
    var b := a.(list := a.list.(direction := Forward));
    PreparedHints(f, b, Forward);
    var c := Feed(t, Prepare(b, Forward));
    assert c.lCurrentRecord !in f;
    NotInPage(t, f, Forward, BoundKey(t, c), c.lCurrentRecord);
    ReadPageGone(t, c, Forward, SkipPage(t, Forward, BoundKey(t, c)));
    assert OnNothing(f, c.list);
  }

  // ---------------------------------------------------------------- moves

  lemma SkipOne(t: Table, a: Area, q: Direction)
    ensures SkipLoop(t, a, q, 1) == SkipRaw(t, a, q)
  {
    RepeatOnce(Step(t, q), a);
  }

  lemma RepeatOnce(step: Area -> Area, a: Area)
    ensures Repeat(step, a, 1) == step(a)
  {
    assert Repeat(step, step(a), 0) == step(a);
  }

  lemma LoopNone(t: Table, a: Area, q: Direction)
    ensures SkipLoop(t, a, q, 0) == a
  {
  }

  function DirectionOf(n: int): Direction
  {
    if n > 0 then Forward else Backward
  }

  /** Skipping one row is one raw skip between the two changes of the flags. */
  lemma SkipFromIs(t: Table, a: Area, n: int)
    requires n == 1 || n == -1
    ensures SkipFrom(t, a, n) == SkipEnd(SkipRaw(t, SkipStart(a), DirectionOf(n)), DirectionOf(n))
  {
    SkipOne(t, SkipStart(a), DirectionOf(n));
  }

  lemma SkipStartsReady(t: Table, f: seq<nat>, a: Area, i: nat, bof: bool)
    requires Order(t, f) && Simulates(t, f, a, P.OnRow(i, bof))
    ensures OnWindow(f, SkipStart(a).list, SkipStart(a).hints, i) && Ready(f, SkipStart(a), i)
    ensures SkipStart(a).flags.lLastRec == a.flags.lLastRec
  {
    OnWindowHere(f, a.list, i);
  }

  lemma SkipEnds(t: Table, f: seq<nat>, b: Area, lastRec: nat, n: int, i: nat)
    requires n == 1 || n == -1
    requires i < |f| && Stepped(t, f, b, lastRec, DirectionOf(n), i) && (lastRec == 0 || lastRec == t.recCount + 1)
    ensures Simulates(t, f, SkipEnd(b, DirectionOf(n)), P.PlainSkipFrom(|f|, i, n))
  {
  }

  lemma SkipFromRow(t: Table, f: seq<nat>, a: Area, i: nat, bof: bool, n: int)
    requires TableOk(t) && Order(t, f) && LimitSuffices(t) && (n == 1 || n == -1)
    requires Simulates(t, f, a, P.OnRow(i, bof))
    ensures Simulates(t, f, SkipFrom(t, a, n), P.PlainSkipFrom(|f|, i, n))
  {
    SkipFromIs(t, a, n);
    SkipStartsReady(t, f, a, i, bof);
    RawSkipSteps(t, f, SkipStart(a), DirectionOf(n), i);
    SkipEnds(t, f, SkipRaw(t, SkipStart(a), DirectionOf(n)), a.flags.lLastRec, n, i);
  }

  lemma SkipFromPhantom(t: Table, f: seq<nat>, a: Area, bof: bool, n: int)
    requires TableOk(t) && Order(t, f) && LimitSuffices(t) && |f| != EDGE_LIST_SIZE && (n == 1 || n == -1)
    requires Simulates(t, f, a, P.Phantom(bof))
    ensures Simulates(t, f, SkipFrom(t, a, n), P.PlainSkip(|f|, P.Phantom(bof), n))
  {
    SkipFromIs(t, a, n);
    PhantomStarts(t, f, a, bof);
    PhantomSteps(t, f, SkipStart(a), DirectionOf(n));
    PlainFromPhantom(|f|, bof, n);
  }

  lemma PhantomStarts(t: Table, f: seq<nat>, a: Area, bof: bool)
    requires Simulates(t, f, a, P.Phantom(bof))
    ensures PhantomReady(t, f, SkipStart(a))
  {
  }

  lemma PlainFromPhantom(count: nat, bof: bool, n: int)
    requires count > 0 && (n == 1 || n == -1)
    ensures P.PlainSkip(count, P.Phantom(bof), n)
         == if DirectionOf(n) == Forward then P.Phantom(false) else P.OnRow(count - 1, false)
  {
  }

  lemma PhantomSteps(t: Table, f: seq<nat>, a: Area, q: Direction)
    requires TableOk(t) && Order(t, f) && LimitSuffices(t) && |f| != EDGE_LIST_SIZE
    requires PhantomReady(t, f, a)
    ensures Simulates(t, f, SkipEnd(SkipRaw(t, a, q), q),
                      if q == Forward then P.Phantom(false) else P.OnRow(|f| - 1, false))
  {
    if q == Forward {
      PhantomStays(t, f, a);
    } else {
      PhantomStepsBack(t, f, a);
    }
  }

  lemma PhantomStepsBack(t: Table, f: seq<nat>, a: Area)
    requires Order(t, f) && |f| != EDGE_LIST_SIZE && PhantomReady(t, f, a)
    ensures Simulates(t, f, SkipEnd(SkipRaw(t, a, Backward), Backward), P.OnRow(|f| - 1, false))
  {
    assert Settled(f, a.list, a.hints, |f| - 1);
    GoEdgeLands(t, f, a, |f| - 1, Backward);
    assert SkipRaw(t, a, Backward) == GoEdge(t, a, Backward);
    LandedOnLast(t, f, GoEdge(t, a, Backward));
  }

  lemma LandedOnLast(t: Table, f: seq<nat>, b: Area)
    requires |f| > 0 && OnWindow(f, b.list, b.hints, |f| - 1)
    requires b.flags == Flags(false, false, false, false, true, t.recCount + 1)
    ensures Simulates(t, f, SkipEnd(b, Backward), P.OnRow(|f| - 1, false))
  {
  }

  lemma SettledWhen(t: Table, f: seq<nat>, a: Area, c: P.Plain) returns (j: nat)
    requires Simulates(t, f, a, c) && |f| > 0
    ensures Settled(f, a.list, a.hints, j)
  {
    j := if c.OnRow? then c.i else |f| - 1;
  }

  lemma EdgeSimulates(t: Table, f: seq<nat>, a: Area, c: P.Plain, d: Direction)
    requires Order(t, f) && Simulates(t, f, a, c) && |f| > 0 && |f| != EDGE_LIST_SIZE
    ensures Simulates(t, f, GoEdge(t, a, d), P.OnRow(Turn(f, d, 0), false))
  {
    var j := SettledWhen(t, f, a, c);
    GoEdgeLands(t, f, a, j, d);
  }

  lemma PlainGoTo(t: Table, f: seq<nat>, c: P.Plain, recno: nat) returns (i: nat)
    requires f == Numbers(t)
    ensures i == |f| ==> recno !in f && P.PlainDo(t, c, GoToRecord(recno)) == P.Phantom(true)
    ensures i < |f| ==> f[i] == recno && P.PlainDo(t, c, GoToRecord(recno)) == P.OnRow(i, false)
    ensures i <= |f|
  {
    i := RowIndex(Visits(t, Forward), recno);
    RowIndexMisses(Visits(t, Forward), recno);
  }

  lemma GoToRowSimulates(t: Table, f: seq<nat>, a: Area, c: P.Plain, i: nat)
    requires Order(t, f) && Simulates(t, f, a, c) && i < |f|
    ensures Simulates(t, f, GoTo(t, a, f[i]), P.OnRow(i, false))
  {
    var j := SettledWhen(t, f, a, c);
    assert f[i] in f;
    GoToRow(f, a.list, a.hints, j, i);
  }

  lemma GoToNothingSimulates(t: Table, f: seq<nat>, a: Area, c: P.Plain, recno: nat)
    requires Order(t, f) && Simulates(t, f, a, c) && |f| > 0 && recno != 0 && recno !in f
    ensures Simulates(t, f, GoTo(t, a, recno), P.Phantom(true))
  {
    assert OnNothing(f, SingleRecord(a.list, recno));
  }

  lemma GoToSimulates(t: Table, f: seq<nat>, a: Area, c: P.Plain, recno: nat)
    requires TableOk(t) && Order(t, f) && Simulates(t, f, a, c) && |f| > 0 && recno != 0
    ensures Simulates(t, f, Do(t, a, GoToRecord(recno)), P.PlainDo(t, c, GoToRecord(recno)))
    ensures !P.PlainDo(t, c, GoToRecord(recno)).Fresh?
  {
    var i := PlainGoTo(t, f, c, recno);
    if i < |f| {
      GoToRowSimulates(t, f, a, c, i);
    } else {
      GoToNothingSimulates(t, f, a, c, recno);
    }
  }

  lemma SkipNothing(t: Table, f: seq<nat>, a: Area, c: P.Plain)
    requires Simulates(t, f, a, c) && !c.Fresh?
    ensures Skip(t, a, 0) == a
  {
  }

  lemma SkipStarted(t: Table, f: seq<nat>, a: Area, c: P.Plain, n: int)
    requires TableOk(t) && Order(t, f) && LimitSuffices(t) && Simulates(t, f, a, c) && !c.Fresh?
    requires |f| > 0 && |f| != EDGE_LIST_SIZE && (n == 1 || n == -1)
    ensures Simulates(t, f, Skip(t, a, n), P.PlainSkip(|f|, c, n))
  {
    assert Skip(t, a, n) == SkipFrom(t, a, n);
    match c
    case OnRow(i, bof) => SkipFromRow(t, f, a, i, bof, n);
    case Phantom(bof) => SkipFromPhantom(t, f, a, bof, n);
  }

  /** The first skip goes to the top before it skips. */
  lemma FirstSkip(t: Table, f: seq<nat>, a: Area, n: int)
    requires TableOk(t) && Order(t, f) && |f| > 0 && |f| != EDGE_LIST_SIZE && Opened(a)
    ensures Simulates(t, f, GoEdge(t, a, Forward), P.OnRow(0, false))
    ensures Skip(t, a, n) == Skip(t, GoEdge(t, a, Forward), n)
    ensures P.PlainSkip(|f|, P.Fresh, n) == P.PlainSkip(|f|, P.OnRow(0, false), n)
  {
    EdgeSimulates(t, f, a, P.Fresh, Forward);
  }

  lemma SkipContinues(t: Table, f: seq<nat>, a: Area, c: P.Plain, n: int)
    requires TableOk(t) && Order(t, f) && LimitSuffices(t) && Simulates(t, f, a, c) && !c.Fresh?
    requires |f| > 0 && |f| != EDGE_LIST_SIZE && -1 <= n <= 1
    ensures Simulates(t, f, Skip(t, a, n), P.PlainSkip(|f|, c, n))
  {
    if n == 0 {
      SkipNothing(t, f, a, c);
    } else {
      SkipStarted(t, f, a, c, n);
    }
  }

  lemma SkipSimulates(t: Table, f: seq<nat>, a: Area, c: P.Plain, n: int)
    requires TableOk(t) && Order(t, f) && LimitSuffices(t) && Simulates(t, f, a, c)
    requires |f| > 0 && |f| != EDGE_LIST_SIZE && -1 <= n <= 1
    ensures Simulates(t, f, Skip(t, a, n), P.PlainSkip(|f|, c, n))
  {
    if c.Fresh? {
      FirstSkip(t, f, a, n);
      SkipContinues(t, f, GoEdge(t, a, Forward), P.OnRow(0, false), n);
    } else {
      SkipContinues(t, f, a, c, n);
    }
  }

  /** The moves of a run: single skips, and GoTo to any record number but 0. */
  predicate SingleStep(m: Move)
  {
    match m
    case GoToRecord(recno) => recno != 0
    case SkipBy(n) => -1 <= n <= 1
    case _ => true
  }

  predicate SingleSteps(moves: seq<Move>)
  {
    forall i :: 0 <= i < |moves| ==> SingleStep(moves[i])
  }

  /** What a table must be like for the window to work. */
  ghost predicate WindowWorks(t: Table)
  {
    |t.data| > 0 && |t.data| != EDGE_LIST_SIZE && LimitSuffices(t)
  }

  lemma MoveSimulates(t: Table, f: seq<nat>, a: Area, c: P.Plain, m: Move)
    requires TableOk(t) && Order(t, f) && WindowWorks(t) && Simulates(t, f, a, c) && SingleStep(m)
    ensures Simulates(t, f, Do(t, a, m), P.PlainDo(t, c, m))
    ensures !P.PlainDo(t, c, m).Fresh?
  {
    match m
    case GoTop => EdgeMoves(t, f, a, c, Forward, m);
    case GoBottom => EdgeMoves(t, f, a, c, Backward, m);
    case GoToRecord(recno) => GoToSimulates(t, f, a, c, recno);
    case SkipBy(n) => SkipMoves(t, f, a, c, n);
  }

  lemma PlainEdgeIs(t: Table, f: seq<nat>, c: P.Plain, d: Direction, m: Move)
    requires f == Numbers(t) && |f| > 0 && m == if d == Forward then GoTop else GoBottom
    ensures P.PlainDo(t, c, m) == P.OnRow(Turn(f, d, 0), false)
  {
  }

  lemma EdgeMoves(t: Table, f: seq<nat>, a: Area, c: P.Plain, d: Direction, m: Move)
    requires Order(t, f) && Simulates(t, f, a, c) && |f| > 0 && |f| != EDGE_LIST_SIZE
    requires m == if d == Forward then GoTop else GoBottom
    ensures Simulates(t, f, Do(t, a, m), P.PlainDo(t, c, m)) && P.PlainDo(t, c, m).OnRow?
  {
    hide Simulates, GoEdge, P.PlainDo;
    EdgeSimulates(t, f, a, c, d);
    PlainEdgeIs(t, f, c, d, m);
  }

  lemma SkipMoves(t: Table, f: seq<nat>, a: Area, c: P.Plain, n: int)
    requires TableOk(t) && Order(t, f) && LimitSuffices(t) && Simulates(t, f, a, c)
    requires |f| > 0 && |f| != EDGE_LIST_SIZE && -1 <= n <= 1
    ensures Simulates(t, f, Do(t, a, SkipBy(n)), P.PlainDo(t, c, SkipBy(n))) && !P.PlainDo(t, c, SkipBy(n)).Fresh?
  {
    SkipSimulates(t, f, a, c, n);
  }

  lemma {:induction false} RunSimulates(t: Table, f: seq<nat>, a: Area, c: P.Plain, moves: seq<Move>)
    requires TableOk(t) && Order(t, f) && WindowWorks(t) && Simulates(t, f, a, c) && SingleSteps(moves)
    ensures Run(t, a, moves) == P.PlainRun(t, c, moves)
    decreases |moves|
  {
    if moves != [] {
      var m := moves[0];
      MoveSimulates(t, f, a, c, m);
      SameLook(t, f, Do(t, a, m), P.PlainDo(t, c, m));
      RunSimulates(t, f, Do(t, a, m), P.PlainDo(t, c, m), moves[1..]);
    }
  }

  /** The record list from its position on is what the record buffer reads a page of: the rows of the list are in the
      table, or it is a single record. */
  lemma ListFeedsBuffer(t: Table, f: seq<nat>, a: Area, c: P.Plain)
    requires Order(t, f) && Simulates(t, f, a, c) && !c.Fresh?
    ensures a.list.pos < a.list.size <= |a.list.slots|
    ensures var rest := a.list.slots[a.list.pos..a.list.size];
            |rest| == 1 || forall r :: r in rest ==> Exists(t, r)
  {
    if !OnNothing(f, a.list) {
      var i := if c.OnRow? then c.i else |f| - 1;
      forall k | a.list.pos <= k < a.list.size ensures Exists(t, a.list.slots[k]) {
        SlotExists(t, f, a.list, i, k);
      }
    }
  }

  /** Every run of GoTop, GoBottom, GoTo and single skips shows what the plain cursor shows. */
  lemma RunsAgree(t: Table, a: Area, moves: seq<Move>)
    requires TableOk(t) && WindowWorks(t) && Opened(a) && SingleSteps(moves)
    ensures Run(t, a, moves) == P.PlainRun(t, P.Fresh, moves)
  {
    OrderHolds(t);
    RunSimulates(t, Numbers(t), a, P.Fresh, moves);
  }

  /** The workarea after a run. */
  function After(t: Table, a: Area, moves: seq<Move>): Area
    decreases |moves|
  {
    if moves == [] then a else After(t, Do(t, a, moves[0]), moves[1..])
  }

  /** What every run keeps: the hints are zero or the ends of the order, and the list is a contiguous run of the order
      with the position inside it, or, at EOF, the one record that a GoTo did not find. */
  ghost predicate Gapless(f: seq<nat>, b: Area)
  {
    && HintsSound(f, b.hints)
    && ((exists i: nat :: WindowOn(f, b.list, i)) || (b.flags.fEof && OnNothing(f, b.list)))
    && (!b.flags.fEof ==> Here(b.list) in f)
  }

  lemma SimulatesIsGapless(t: Table, f: seq<nat>, a: Area, c: P.Plain)
    requires Order(t, f) && Simulates(t, f, a, c) && !c.Fresh?
    ensures Gapless(f, a)
  {
    if !OnNothing(f, a.list) {
      var i := if c.OnRow? then c.i else |f| - 1;
      assert WindowOn(f, a.list, i);
      OnWindowHere(f, a.list, i);
    }
  }

  lemma {:induction false} RunIsGapless(t: Table, f: seq<nat>, a: Area, c: P.Plain, moves: seq<Move>)
    requires TableOk(t) && Order(t, f) && WindowWorks(t) && Simulates(t, f, a, c) && SingleSteps(moves)
    requires moves == [] ==> !c.Fresh?
    ensures Gapless(f, After(t, a, moves))
    decreases |moves|
  {
    if moves == [] {
      SimulatesIsGapless(t, f, a, c);
    } else {
      MoveSimulates(t, f, a, c, moves[0]);
      RunIsGapless(t, f, Do(t, a, moves[0]), P.PlainDo(t, c, moves[0]), moves[1..]);
    }
  }

  lemma WindowStaysGapless(t: Table, a: Area, moves: seq<Move>)
    requires TableOk(t) && WindowWorks(t) && Opened(a) && SingleSteps(moves) && moves != []
    ensures Gapless(Numbers(t), After(t, a, moves))
  {
    OrderHolds(t);
    RunIsGapless(t, Numbers(t), a, P.Fresh, moves);
  }
}
