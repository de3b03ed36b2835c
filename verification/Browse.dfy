/** A program's whole view of an SQLEX workarea: moves, reads and writes of fields outside the index, over the navigation
    of WorkArea.dfy and the record buffer of RecordBuffer.dfy together, against a plain cursor over rows with fields.
 */
module Browse {
  import opened IndexOrder
  import opened Cursor
  import opened Refinement
  import opened Stepping
  import opened Runs
  import P = PlainCursor
  import B = RecordBuffer
  import W = WorkArea

  datatype Op = Go(m: Move) | Read(f: nat) | Write(f: nat, v: int)

  /** What a call returns: where the workarea is, the value of a field, or nothing. */
  datatype Result = At(seen: Seen) | Value(v: int) | Done

  // ---------------------------------------------------------------- what a program should see

  /** A cursor over the ordered rows, the table with its fields and the record that is shown, and whether the record has
      edits that were not written yet. */
  datatype Plain = Plain(cursor: P.Plain, record: B.Plain, edited: bool)

  /** The record that is shown where the cursor is. */
  function PlainShow(t: Table, c: P.Plain, record: B.Plain): B.Plain
  {
    match c
    case OnRow(i, bof) => if i < |Numbers(t)| then B.PlainMove(record, Numbers(t)[i]) else record
    case Phantom(bof) => B.PlainPhantom(record)
    case Fresh => record
  }

  function PlainMoveBy(t: Table, p: Plain, m: Move): Plain
  {
    if m == SkipBy(0) then p.(record := B.PlainFlush(p.record), edited := false)
    else Plain(P.PlainDo(t, p.cursor, m), PlainShow(t, P.PlainDo(t, p.cursor, m), p.record), false)
  }

  /** The first use of a workarea goes to its first row. */
  function PlainEnter(t: Table, p: Plain): Plain
  {
    if p.cursor.Fresh? then PlainMoveBy(t, p, GoTop) else p
  }

  function PlainGo(t: Table, p: Plain, m: Move): Plain
  {
    PlainMoveBy(t, if m.SkipBy? then PlainEnter(t, p) else p, m)
  }

  function PlainWrite(p: Plain, f: nat, v: int): Plain
  {
    p.(record := B.PlainDo(p.record, B.Write(f, v)), edited := true)
  }

  function PlainDo(t: Table, p: Plain, op: Op): Plain
  {
    match op
    case Go(m) => PlainGo(t, p, m)
    case Read(f) => PlainEnter(t, p)
    case Write(f, v) => PlainWrite(PlainEnter(t, p), f, v)
  }

  function PlainResult(t: Table, q: Plain, op: Op): Result
  {
    match op
    case Go(m) => At(P.PlainLook(t, q.cursor))
    case Read(f) => Value(if f < |q.record.record| then q.record.record[f] else 0)
    case Write(f, v) => Done
  }

  function PlainRun(t: Table, p: Plain, ops: seq<Op>): (results: seq<Result>)
    decreases |ops|
  {
    if ops == [] then []
    else [PlainResult(t, PlainDo(t, p, ops[0]), ops[0])] + PlainRun(t, PlainDo(t, p, ops[0]), ops[1..])
  }

  /** A call that names a field, or moves by a single step; it does not skip from an edited phantom record. */
  predicate Proper(p: Plain, fields: nat, op: Op)
  {
    match op
    case Go(m) => SingleStep(m) && (m.SkipBy? && m.n != 0 ==> !(p.cursor.Phantom? && p.edited))
    case Read(f) => f < fields
    case Write(f, v) => f < fields
  }

  predicate AllProper(t: Table, p: Plain, fields: nat, ops: seq<Op>)
    decreases |ops|
  {
    ops == [] || (Proper(p, fields, ops[0]) && AllProper(t, PlainDo(t, p, ops[0]), fields, ops[1..]))
  }

  // ---------------------------------------------------------------- the relation

  /** A single step; a skip is not the first use, and does not leave an edited phantom record. */
  predicate Steps(p: Plain, m: Move)
  {
    SingleStep(m) && (m.SkipBy? ==> !p.cursor.Fresh? && (m.n != 0 ==> !(p.cursor.Phantom? && p.edited)))
  }

  /** The record that is shown is that of the row the cursor is on, or the phantom record. */
  ghost predicate Shows(t: Table, p: Plain)
  {
    && p.record.table.Keys == t.rows.Keys
    && match p.cursor
       case OnRow(i, bof) => i < |Numbers(t)| && !p.record.eof && p.record.recno == Numbers(t)[i] && Exists(t, Numbers(t)[i])
       case _ => p.record.eof
  }

  /** Where the list and the flags of a workarea stand. */
  ghost predicate Stands(t: Table, a: Area, c: P.Plain)
  {
    && !c.Fresh? && a.flags.fEof == c.Phantom? && a.flags.fBof == c.bof
    && a.list.pos < a.list.size <= |a.list.slots|
    && (c.OnRow? ==> c.i < |Numbers(t)| && a.list.slots[a.list.pos] == Numbers(t)[c.i] && Exists(t, Numbers(t)[c.i]))
    && (|a.list.slots[a.list.pos..a.list.size]| == 1 || forall r :: r in a.list.slots[a.list.pos..a.list.size] ==> Exists(t, r))
  }

  lemma SimulatesStands(t: Table, a: Area, c: P.Plain)
    requires TableOk(t) && Simulates(t, Numbers(t), a, c) && !c.Fresh?
    ensures Stands(t, a, c)
  {
    OrderHolds(t);
    ListFeedsBuffer(t, Numbers(t), a, c);
    if c.OnRow? {
      OnWindowHere(Numbers(t), a.list, c.i);
      assert Numbers(t)[c.i] in Numbers(t);
    }
  }

  /** BOF is only reached from the first row, and stays there. */
  lemma BofIsHere(t: Table, c: P.Plain, m: Move)
    requires SingleStep(m) && m != SkipBy(0) && (m.SkipBy? ==> !c.Fresh?) && |Numbers(t)| > 0
    requires P.PlainDo(t, c, m).OnRow? && P.PlainDo(t, c, m).bof
    ensures c.OnRow? && c.i == P.PlainDo(t, c, m).i
  {
  }

  /** Moving to the row that is shown is writing its edits. */
  lemma MoveHere(p: B.Plain)
    requires !p.eof && p.recno in p.table
    ensures B.PlainMove(p, p.recno) == B.PlainFlush(p)
  {
  }

  lemma ShowsRow(t: Table, c: P.Plain, record: B.Plain)
    requires c.OnRow? && c.i < |Numbers(t)|
    ensures PlainShow(t, c, record) == B.PlainMove(record, Numbers(t)[c.i])
  {
  }

  lemma ShowsPhantom(t: Table, c: P.Plain, record: B.Plain)
    requires c.Phantom?
    ensures PlainShow(t, c, record) == B.PlainPhantom(record)
  {
  }

  /** A move that stays on the row with BOF on shows the record that was shown, written. */
  lemma ShowsHere(t: Table, c: P.Plain, p: Plain, m: Move)
    requires SingleStep(m) && m != SkipBy(0) && (m.SkipBy? ==> !p.cursor.Fresh?) && |Numbers(t)| > 0
    requires Shows(t, p) && c == P.PlainDo(t, p.cursor, m) && c.OnRow? && c.bof
    ensures PlainShow(t, c, p.record) == B.PlainFlush(p.record)
  {
    BofIsHere(t, p.cursor, m);
    MoveHere(p.record);
  }

  lemma StandsFlags(t: Table, a: Area, c: P.Plain)
    requires Stands(t, a, c)
    ensures a.flags.fEof == c.Phantom? && (c.OnRow? || c.Phantom?) && a.flags.fBof == c.bof
  {
  }

  lemma FlushTwice(p: B.Plain)
    ensures B.PlainFlush(B.PlainFlush(p)) == B.PlainFlush(p)
  {
  }

  lemma ShowFlushed(t: Table, c: P.Plain, record: B.Plain)
    ensures !c.Fresh? && (c.OnRow? ==> c.i < |Numbers(t)|) ==> PlainShow(t, c, B.PlainFlush(record)) == PlainShow(t, c, record)
    ensures B.PlainFlush(B.PlainFlush(record)) == B.PlainFlush(record)
  {
    FlushTwice(record);
  }

  lemma ShowsFlushed(t: Table, p: Plain)
    requires Shows(t, p)
    ensures Shows(t, p.(record := B.PlainFlush(p.record), edited := false))
  {
  }

  lemma ShowsKeys(t: Table, p: Plain)
    requires Shows(t, p)
    ensures p.record.table.Keys == t.rows.Keys
  {
  }

  lemma StepsParts(p: Plain, m: Move)
    requires Steps(p, m)
    ensures SingleStep(m) && (m.SkipBy? ==> !p.cursor.Fresh?)
    ensures m.SkipBy? && m.n != 0 ==> !(p.cursor.Phantom? && p.edited)
  {
  }

  lemma SkipNone(t: Table, c: P.Plain)
    requires !c.Fresh?
    ensures P.PlainDo(t, c, SkipBy(0)) == c
  {
  }

  lemma MoveShows(t: Table, a: Area, c: P.Plain, p: Plain)
    requires Stands(t, a, c) && Shows(t, p)
    ensures Shows(t, Plain(c, PlainShow(t, c, p.record), false))
  {
    if c.OnRow? {
      assert Numbers(t)[c.i] in B.PlainFlush(p.record).table;
    }
  }

  /** The workarea after a move, from a sound one. */
  lemma MoveStands(t: Table, a: Area, c: P.Plain, m: Move)
    requires TableOk(t) && WindowWorks(t) && Simulates(t, Numbers(t), a, c) && SingleStep(m)
    ensures var d := P.PlainDo(t, c, m);
            Simulates(t, Numbers(t), Do(t, a, m), d) && Stands(t, Do(t, a, m), d) && Look(Do(t, a, m)) == P.PlainLook(t, d)
    ensures |Numbers(t)| > 0
  {
    hide Do, Look, P.PlainDo, P.PlainLook, Stands, Simulates;
    OrderHolds(t);
    MoveSimulates(t, Numbers(t), a, c, m);
    SimulatesStands(t, Do(t, a, m), P.PlainDo(t, c, m));
    SameLook(t, Numbers(t), Do(t, a, m), P.PlainDo(t, c, m));
  }

  /** A move from a record whose edits were written. */
  lemma MoveOfFlushed(t: Table, a: Area, p: Plain, q: Plain, m: Move)
    requires Steps(p, m) && q == p.(record := B.PlainFlush(p.record), edited := false)
    requires Stands(t, a, P.PlainDo(t, p.cursor, m))
    ensures PlainMoveBy(t, p, m) == if m == SkipBy(0) then q.(cursor := P.PlainDo(t, p.cursor, m))
                                    else Plain(P.PlainDo(t, p.cursor, m), PlainShow(t, P.PlainDo(t, p.cursor, m), q.record), false)
  {
    ShowFlushed(t, P.PlainDo(t, p.cursor, m), p.record);
  }

  /** On the phantom record the list stands on the last row, or on a record that is not there. */
  lemma PhantomStands(t: Table, a: Area, c: P.Plain)
    requires TableOk(t) && Simulates(t, Numbers(t), a, c) && c.Phantom?
    ensures |Numbers(t)| > 0 && a.list.pos < |a.list.slots|
    ensures Exists(t, a.list.slots[a.list.pos]) ==> a.list.slots[a.list.pos] == Numbers(t)[|Numbers(t)| - 1]
  {
    OrderHolds(t);
    hide TableOk, EndsKnown;
    if !OnNothing(Numbers(t), a.list) {
      OnWindowHere(Numbers(t), a.list, |Numbers(t)| - 1);
    }
  }

  lemma OpenedShows(t: Table, a: Area, record: B.Plain)
    requires Opened(a) && record.eof && record.table.Keys == t.rows.Keys
    ensures Simulates(t, Numbers(t), a, P.Fresh) && Shows(t, Plain(P.Fresh, record, false))
  {
  }

  lemma MapKeeps(m: map<nat, seq<int>>, r: nat, row: seq<int>)
    requires r in m
    ensures m[r := row] == m <==> row == m[r]
  {
    assert m[r := row][r] == row;
  }

  lemma FreshIsFirst(t: Table, a: Area, c: P.Plain)
    requires Simulates(t, Numbers(t), a, c)
    ensures a.flags.firstinteract == c.Fresh?
  {
  }

  lemma WriteShows(t: Table, p: Plain, f: nat, v: int)
    requires Shows(t, p) && f < |p.record.record|
    ensures Shows(t, PlainWrite(p, f, v))
    ensures PlainWrite(p, f, v) == p.(record := p.record.(record := p.record.record[f := v]), edited := true)
  {
  }

  lemma ProperSteps(t: Table, p: Plain, m: Move, fields: nat, q: Plain)
    requires Proper(p, fields, Go(m)) && q == (if m.SkipBy? then PlainEnter(t, p) else p)
    requires m.SkipBy? ==> !q.cursor.Fresh?
    ensures Steps(q, m)
  {
  }

  lemma RunStep(t: Table, all: seq<Result>, results: seq<Result>, p: Plain, ops: seq<Op>, i: nat, r: Result)
    requires i < |ops| && results + PlainRun(t, p, ops[i..]) == all && r == PlainResult(t, PlainDo(t, p, ops[i]), ops[i])
    ensures results + [r] + PlainRun(t, PlainDo(t, p, ops[i]), ops[i + 1..]) == all
  {
    assert ops[i..][1..] == ops[i + 1..];
  }

  lemma RunEnds(t: Table, p: Plain, ops: seq<Op>)
    ensures PlainRun(t, p, ops[|ops|..]) == []
  {
  }

  lemma ProperStep(t: Table, p: Plain, fields: nat, ops: seq<Op>, i: nat)
    requires i < |ops| && AllProper(t, p, fields, ops[i..])
    ensures Proper(p, fields, ops[i]) && AllProper(t, PlainDo(t, p, ops[i]), fields, ops[i + 1..])
  {
    assert ops[i..][1..] == ops[i + 1..];
  }

  // ---------------------------------------------------------------- the workarea

  class SqlExTable {
    const area: W.SqlExArea
    const buffer: B.SqlExBuffer

    /** Both parts are sound and show what `p` shows. They share no memory: recordList and lRecordToRetrieve are the only
        arrays of the same kind. */
    ghost predicate Sound(p: Plain)
      reads area, area.recordList, area.skipFwdStmt, area.skipBwdStmt, buffer, buffer.aBuffer, buffer.uiFieldList, buffer.editMask
    {
      && area.recordList != buffer.lRecordToRetrieve
      && area.Valid() && buffer.Valid() && TableOk(area.t) && WindowWorks(area.t)
      && Simulates(area.t, Numbers(area.t), area.View(), p.cursor)
      && Shows(area.t, p) && buffer.View() == p.record && (buffer.bufferHot ==> p.edited)
    }

    /** A workarea that was just opened, over a table with the same records. */
    constructor (a: W.SqlExArea, b: B.SqlExBuffer)
      requires a.Valid() && Opened(a.View()) && TableOk(a.t) && WindowWorks(a.t)
      requires b.Valid() && b.fEof && !b.bufferHot && b.table.Keys == a.t.rows.Keys
      requires a.recordList != b.lRecordToRetrieve
      ensures area == a && buffer == b && Sound(Plain(P.Fresh, b.View(), false))
    {
      area, buffer := a, b;
      new;
      hide *;
      b.ViewKeys();
      b.ViewEof();
      OpenedShows(a.t, a.View(), b.View());
      Whole(Plain(P.Fresh, b.View(), false));
    }

    /** The record list from its position on is read. */
    method ReadList(again: bool, ghost c: P.Plain, ghost record: B.Plain)
      requires area.Valid() && buffer.Valid()
      requires buffer.View() == record && record.table.Keys == area.t.rows.Keys
      requires Stands(area.t, area.View(), c) && c.OnRow?
      modifies buffer, buffer.aBuffer, buffer.editMask, buffer.lRecordToRetrieve
      ensures buffer.Valid() && buffer.View() == PlainShow(area.t, c, record) && !buffer.bufferHot
    {
      hide *;
      var list := ListAhead(c);
      buffer.ViewKeys();
      buffer.MoveTo(list, again);
      ShowsRow(area.t, c, record);
    }

    method ListAhead(ghost c: P.Plain) returns (list: seq<nat>)
      requires area.Valid() && Stands(area.t, area.View(), c) && c.OnRow?
      ensures list != [] && c.i < |Numbers(area.t)| && list[0] == Numbers(area.t)[c.i]
      ensures |list| == 1 || forall r :: r in list ==> r in area.t.rows
    {
      list := area.recordList[area.recordListPos..area.recordListSize];
      assert area.View().list.slots[area.View().list.pos..area.View().list.size] == list;
    }

    /** After a move of the workarea the record buffer follows. A skip that runs into BOF leaves the record as it is. */
    method Follow(m: Move, again: bool, ghost p: Plain, ghost c: P.Plain)
      requires area.Valid() && buffer.Valid() && buffer.View() == p.record && !buffer.bufferHot
      requires Shows(area.t, p) && p.record.table.Keys == area.t.rows.Keys
      requires Stands(area.t, area.View(), c) && c == P.PlainDo(area.t, p.cursor, m)
      requires SingleStep(m) && m != SkipBy(0) && (m.SkipBy? ==> !p.cursor.Fresh?) && |Numbers(area.t)| > 0
      modifies buffer, buffer.aBuffer, buffer.editMask, buffer.lRecordToRetrieve
      ensures buffer.Valid() && buffer.View() == PlainShow(area.t, c, p.record) && !buffer.bufferHot
    {
      hide *;
      area.ViewFields();
      StandsFlags(area.t, area.View(), c);
      if area.fEof {
        buffer.ToPhantom();
        ShowsPhantom(area.t, c, p.record);
      } else if area.fBof {
        buffer.GoCold();
        ShowsHere(area.t, c, p, m);
      } else {
        ReadList(again, c, p.record);
      }
    }

    lemma Parts(p: Plain)
      requires Sound(p)
      ensures area.recordList != buffer.lRecordToRetrieve && area.Valid() && buffer.Valid()
      ensures TableOk(area.t) && WindowWorks(area.t)
      ensures Simulates(area.t, Numbers(area.t), area.View(), p.cursor)
      ensures Shows(area.t, p) && buffer.View() == p.record && (buffer.bufferHot ==> p.edited)
    {
    }

    lemma Whole(p: Plain)
      requires area.recordList != buffer.lRecordToRetrieve && area.Valid() && buffer.Valid()
      requires TableOk(area.t) && WindowWorks(area.t)
      requires Simulates(area.t, Numbers(area.t), area.View(), p.cursor)
      requires Shows(area.t, p) && buffer.View() == p.record && (buffer.bufferHot ==> p.edited)
      ensures Sound(p)
    {
    }

    /** On a row the list stands on the record of the buffer. */
    lemma ListOnRecord(p: Plain)
      requires Sound(p)
      ensures area.recordListPos < area.recordList.Length
      ensures buffer.fEof <==> !p.cursor.OnRow?
      ensures p.cursor.OnRow? ==> area.recordList[area.recordListPos] == buffer.recno
    {
      hide TableOk, WindowWorks, HintsSound, EndsKnown, B.SqlExBuffer.Valid, Exists, Numbers;
      if p.cursor.OnRow? {
        OnWindowHere(Numbers(area.t), area.View().list, p.cursor.i);
      }
    }

    /** Whether a GoTo reads its record from the table: it does when the list does not have the record. */
    method ReadsAgain(m: Move) returns (again: bool)
      requires area.Valid()
    {
      again := false;
      match m {
        case GoTop => again := area.lBofAt != 0 && area.lBofAt !in area.recordList[..area.recordListSize];
        case GoBottom => again := area.lEofAt != 0 && area.lEofAt !in area.recordList[..area.recordListSize];
        case GoToRecord(recno) => again := recno !in area.recordList[..area.recordListSize];
        case _ =>
      }
    }

    /** GOCOLD before the move. A skip has set EOF off by then. */
    method WriteFirst(m: Move, ghost p: Plain)
      requires Sound(p) && (m.SkipBy? && m.n != 0 ==> !p.cursor.Fresh? && !(p.cursor.Phantom? && p.edited))
      modifies buffer, buffer.editMask
      ensures Sound(p.(record := B.PlainFlush(p.record), edited := false))
    {
      hide *;
      Parts(p);
      ListOnRecord(p);
      if m.SkipBy? && m.n != 0 {
        buffer.GoColdInSkip(area.recordList[area.recordListPos]);
      } else {
        buffer.GoCold();
      }
      ShowsFlushed(area.t, p);
      Whole(p.(record := B.PlainFlush(p.record), edited := false));
    }

    /** The statements of a move: edits are written, the workarea moves, the record buffer follows. */
    method MoveBy(m: Move, ghost p: Plain) returns (seen: Seen)
      requires Sound(p) && Steps(p, m)
      modifies area, area.recordList, area.skipFwdStmt, area.skipBwdStmt
      modifies buffer, buffer.aBuffer, buffer.editMask, buffer.lRecordToRetrieve
      ensures Sound(PlainMoveBy(area.t, p, m)) && !PlainMoveBy(area.t, p, m).cursor.Fresh?
      ensures seen == P.PlainLook(area.t, PlainMoveBy(area.t, p, m).cursor)
    {
      hide *;
      Parts(p);
      var again := ReadsAgain(m);
      StepsParts(p, m);
      WriteFirst(m, p);
      ghost var q := p.(record := B.PlainFlush(p.record), edited := false);
      Parts(q);
      MoveStands(area.t, area.View(), p.cursor, m);
      seen := area.Perform(m);
      ghost var c := P.PlainDo(area.t, p.cursor, m);
      MoveOfFlushed(area.t, area.View(), p, q, m);
      ShowsKeys(area.t, q);
      if m == SkipBy(0) {
        SkipNone(area.t, p.cursor);
      } else {
        MoveShows(area.t, area.View(), c, q);
        Follow(m, again, q, c);
      }
      StandsFlags(area.t, area.View(), c);
      Whole(PlainMoveBy(area.t, p, m));
    }

    lemma ListOnLast(p: Plain)
      requires Sound(p) && p.cursor.Phantom?
      ensures area.recordListPos < area.recordList.Length && |Numbers(area.t)| > 0
      ensures var r := area.recordList[area.recordListPos];
              r in area.t.rows ==> r == Numbers(area.t)[|Numbers(area.t)| - 1]
      ensures buffer.table.Keys == area.t.rows.Keys
    {
      hide Sound, TableOk, WindowWorks, Simulates, Shows, W.SqlExArea.Valid, W.SqlExArea.View, B.SqlExBuffer.Valid, B.SqlExBuffer.View, Numbers;
      Parts(p);
      ShowsKeys(area.t, p);
      buffer.ViewKeys();
      area.ViewFields();
      PhantomStands(area.t, area.View(), p.cursor);
    }

    /** What Proper excludes: a skip from an edited phantom record writes the edits to the last row of the order, unless
        a GoTo to a record that is not there left the list. So the table is kept exactly when that is how the phantom
        record was reached, or the edits repeat the values of the last row. */
    method SkipFromEdited(ghost p: Plain) returns (r: nat)
      requires Sound(p) && p.cursor.Phantom? && buffer.bufferHot
      modifies buffer, buffer.editMask
      ensures r == area.recordList[area.recordListPos]
      ensures r in area.t.rows ==> r == Numbers(area.t)[|Numbers(area.t)| - 1]
      ensures var (was, edits, mask) := (old(buffer.table), old(buffer.aBuffer[..]), old(buffer.editMask[..]));
              if r in area.t.rows then
                && r in was && |was[r]| == |edits| == |mask| && buffer.table == was[r := B.Edited(was[r], edits, mask)]
                && (buffer.table == was <==> forall c :: 0 <= c < |mask| && mask[c] ==> edits[c] == B.Value(was[r][c]))
              else buffer.table == was
    {
      hide *;
      Parts(p);
      ListOnRecord(p);
      ListOnLast(p);
      buffer.Widths();
      r := area.recordList[area.recordListPos];
      ghost var was, edits, mask := buffer.table, buffer.aBuffer[..], buffer.editMask[..];
      buffer.GoColdInSkip(r);
      if r in was {
        B.EditedKeepsExactly(was[r], edits, mask);
        MapKeeps(was, r, B.Edited(was[r], edits, mask));
      }
    }

    /** The first use of the workarea. */
    method Enter(ghost p: Plain)
      requires Sound(p)
      modifies area, area.recordList, area.skipFwdStmt, area.skipBwdStmt
      modifies buffer, buffer.aBuffer, buffer.editMask, buffer.lRecordToRetrieve
      ensures Sound(PlainEnter(area.t, p)) && !PlainEnter(area.t, p).cursor.Fresh?
    {
      if area.firstinteract {
        var seen := MoveBy(GoTop, p);
      }
    }

    method Move(m: Move, ghost p: Plain) returns (seen: Seen)
      requires Sound(p) && Proper(p, |buffer.uiBufferIndex|, Go(m))
      modifies area, area.recordList, area.skipFwdStmt, area.skipBwdStmt
      modifies buffer, buffer.aBuffer, buffer.editMask, buffer.lRecordToRetrieve
      ensures Sound(PlainGo(area.t, p, m)) && seen == P.PlainLook(area.t, PlainGo(area.t, p, m).cursor)
    {
      hide Sound, P.PlainLook, PlainMoveBy, Proper, Steps;
      if m.SkipBy? {
        Enter(p);
      }
      ghost var q := if m.SkipBy? then PlainEnter(area.t, p) else p;
      ProperSteps(area.t, p, m, |buffer.uiBufferIndex|, q);
      seen := MoveBy(m, q);
    }

    lemma RecordLength(p: Plain)
      requires Sound(p)
      ensures |p.record.record| == |buffer.uiBufferIndex|
    {
      hide TableOk, WindowWorks, Simulates, Shows, W.SqlExArea.Valid;
    }

    /** A read of the record that is shown. */
    method ReadField(f: nat, ghost p: Plain) returns (value: int)
      requires Sound(p) && f < |p.record.record|
      modifies buffer, buffer.aBuffer, buffer.uiFieldList
      ensures Sound(p) && value == p.record.record[f]
    {
      hide *;
      RecordLength(p);
      Parts(p);
      value := buffer.GetValue(f);
      Whole(p);
    }

    method WriteField(f: nat, v: int, ghost p: Plain)
      requires Sound(p) && f < |p.record.record|
      modifies buffer, buffer.aBuffer, buffer.uiFieldList, buffer.editMask
      ensures Sound(PlainWrite(p, f, v))
    {
      hide *;
      RecordLength(p);
      Parts(p);
      buffer.PutValue(f, v);
      WriteShows(area.t, p, f, v);
      Whole(PlainWrite(p, f, v));
    }

    method GetValue(f: nat, ghost p: Plain) returns (value: int)
      requires Sound(p) && f < |buffer.uiBufferIndex|
      modifies area, area.recordList, area.skipFwdStmt, area.skipBwdStmt
      modifies buffer, buffer.aBuffer, buffer.uiFieldList, buffer.editMask, buffer.lRecordToRetrieve
      ensures Sound(PlainEnter(area.t, p)) && f < |PlainEnter(area.t, p).record.record|
      ensures value == PlainEnter(area.t, p).record.record[f]
    {
      hide *;
      Enter(p);
      RecordLength(PlainEnter(area.t, p));
      value := ReadField(f, PlainEnter(area.t, p));
    }

    method PutValue(f: nat, v: int, ghost p: Plain)
      requires Sound(p) && f < |buffer.uiBufferIndex|
      modifies area, area.recordList, area.skipFwdStmt, area.skipBwdStmt
      modifies buffer, buffer.aBuffer, buffer.uiFieldList, buffer.editMask, buffer.lRecordToRetrieve
      ensures Sound(PlainWrite(PlainEnter(area.t, p), f, v))
    {
      hide *;
      Enter(p);
      RecordLength(PlainEnter(area.t, p));
      WriteField(f, v, PlainEnter(area.t, p));
    }

    method Perform(op: Op, ghost p: Plain) returns (result: Result)
      requires Sound(p) && Proper(p, |buffer.uiBufferIndex|, op)
      modifies area, area.recordList, area.skipFwdStmt, area.skipBwdStmt
      modifies buffer, buffer.aBuffer, buffer.uiFieldList, buffer.editMask, buffer.lRecordToRetrieve
      ensures Sound(PlainDo(area.t, p, op)) && result == PlainResult(area.t, PlainDo(area.t, p, op), op)
    {
      hide Sound, PlainEnter, PlainGo, PlainWrite, P.PlainLook;
      match op {
        case Go(m) =>
          var seen := Move(m, p);
          result := At(seen);
        case Read(f) =>
          var value := GetValue(f, p);
          result := Value(value);
        case Write(f, v) =>
          PutValue(f, v, p);
          result := Done;
      }
    }

    /** Whatever a program does, calls return what they would return over a plain cursor and a table with fields. */
    method PerformAll(ops: seq<Op>, ghost p: Plain) returns (results: seq<Result>)
      requires Sound(p) && AllProper(area.t, p, |buffer.uiBufferIndex|, ops)
      modifies area, area.recordList, area.skipFwdStmt, area.skipBwdStmt
      modifies buffer, buffer.aBuffer, buffer.uiFieldList, buffer.editMask, buffer.lRecordToRetrieve
      ensures results == PlainRun(area.t, p, ops)
    {
      hide Sound, PlainDo, PlainResult, PlainRun, Proper, AllProper;
      results := [];
      var i := 0;
      ghost var q := p;
      while i < |ops|
        invariant i <= |ops| && Sound(q) && AllProper(area.t, q, |buffer.uiBufferIndex|, ops[i..])
        invariant results + PlainRun(area.t, q, ops[i..]) == PlainRun(area.t, p, ops)
      {
        ProperStep(area.t, q, |buffer.uiBufferIndex|, ops, i);
        var r := Perform(ops[i], q);
        RunStep(area.t, PlainRun(area.t, p, ops), results, q, ops, i, r);
        q := PlainDo(area.t, q, ops[i]);
        results := results + [r];
        i := i + 1;
      }
      RunEnds(area.t, q, ops);
    }

    /** From opening the workarea on. */
    method PerformFromStart(ops: seq<Op>) returns (results: seq<Result>)
      requires buffer.Valid() && Sound(Plain(P.Fresh, buffer.View(), false))
      requires AllProper(area.t, Plain(P.Fresh, buffer.View(), false), |buffer.uiBufferIndex|, ops)
      modifies area, area.recordList, area.skipFwdStmt, area.skipBwdStmt
      modifies buffer, buffer.aBuffer, buffer.uiFieldList, buffer.editMask, buffer.lRecordToRetrieve
      ensures results == PlainRun(area.t, Plain(P.Fresh, old(buffer.View()), false), ops)
    {
      results := PerformAll(ops, Plain(P.Fresh, buffer.View(), false));
    }
  }
}
