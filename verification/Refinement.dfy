/** The window of Cursor.dfy refines the plain cursor: the invariant, and each move keeping it. */
module Refinement {
  import opened IndexOrder
  import opened Dialects
  import opened Cursor
  import P = PlainCursor

  // ---------------------------------------------------------------- the order as record numbers

  /** The record numbers in the order of direction Forward. */
  function Numbers(t: Table): (f: seq<nat>)
    ensures |f| == |Visits(t, Forward)|
  {
    Recnos(Visits(t, Forward))
  }

  /** When direction `d` visits row `i`; also the row that it visits then. */
  function Turn(f: seq<nat>, d: Direction, i: nat): nat
    requires i < |f|
  {
    if d == Forward then i else |f| - 1 - i
  }

  /** The `k`th record number that direction `d` visits. */
  function At(f: seq<nat>, d: Direction, k: nat): nat
    requires k < |f|
  {
    f[Turn(f, d, k)]
  }

  ghost predicate Distinct(f: seq<nat>)
  {
    forall i, j :: 0 <= i < j < |f| ==> f[i] != f[j]
  }

  lemma AtDiffers(f: seq<nat>, q: Direction, j: nat, k: nat)
    requires Distinct(f) && j < |f| && k < |f| && j != k
    ensures At(f, q, j) != At(f, q, k)
  {
  }

  /** What the moves need to know about the order. */
  ghost predicate Order(t: Table, f: seq<nat>)
  {
    && f == Numbers(t) && |f| == |t.data|
    && Distinct(f)
    && (forall k :: 0 <= k < |f| ==> 1 <= f[k] <= t.recCount)
    && (forall r :: Exists(t, r) <==> r in f)
  }

  lemma VisitsAreOrdered(t: Table, d: Direction)
    requires TableOk(t)
    ensures |Visits(t, d)| == |t.data|
    ensures Ordered(Visits(t, d), t.columns, Ascending(t, d))
    ensures RecnosDiffer(Visits(t, d))
    ensures forall x :: x in Visits(t, d) <==> x in t.data
  {
    OrderByIsOrdered(t.data, t.columns, Ascending(t, d));
    OrderIsUnique(t.data, t.columns, Ascending(t, d));
  }

  lemma VisitsStored(t: Table, d: Direction, k: nat)
    requires TableOk(t) && k < |Visits(t, d)|
    ensures var r := Visits(t, d)[k]; 1 <= r.recno <= t.recCount && Exists(t, r.recno) && t.rows[r.recno] == r.key
  {
    VisitsAreOrdered(t, d);
    assert Visits(t, d)[k] in t.data;
    var l :| 0 <= l < |t.data| && t.data[l] == Visits(t, d)[k];
  }

  lemma OrderHolds(t: Table)
    requires TableOk(t)
    ensures Order(t, Numbers(t))
  {
    VisitsAreOrdered(t, Forward);
    var v := Visits(t, Forward);
    var f := Numbers(t);
    forall k | 0 <= k < |v| ensures 1 <= f[k] <= t.recCount && Exists(t, f[k]) {
      VisitsStored(t, Forward, k);
    }
    forall r | Exists(t, r) ensures r in f {
      assert Row(r, t.rows[r]) in t.data;
      assert Row(r, t.rows[r]) in v;
      var k :| 0 <= k < |v| && v[k] == Row(r, t.rows[r]);
      assert f[k] == r;
    }
  }

  /** Direction Backward visits the rows in the opposite order. */
  lemma VisitsAt(t: Table, f: seq<nat>, d: Direction, k: nat)
    requires f == Numbers(t) && k < |f|
    ensures |Visits(t, d)| == |f|
    ensures Visits(t, d)[k].recno == At(f, d, k)
  {
    OrderByAt(t.data, Ascending(t, d), Ascending(t, Forward), k);
  }

  // ---------------------------------------------------------------- the invariant

  /** How many rows the list's direction visits before the list begins, when the current row is row `i`. */
  function Start(f: seq<nat>, l: RecordList, i: nat): int
    requires i < |f|
  {
    Turn(f, l.direction, i) - l.pos
  }

  /** recordList[0..size) is a contiguous run of the order in the list's direction, with the position inside it, on row `i`. */
  ghost predicate WindowOn(f: seq<nat>, l: RecordList, i: nat)
  {
    && Shape(l) && i < |f|
    && l.pos < l.size
    && 0 <= Start(f, l, i) && Start(f, l, i) + l.size <= |f|
    && forall k :: 0 <= k < l.size ==> l.slots[k] == At(f, l.direction, Start(f, l, i) + k)
  }

  /** A hint, when set, is the row it is meant to be. */
  ghost predicate HintsSound(f: seq<nat>, h: Hints)
  {
    && |f| > 0
    && (h.lBofAt == 0 || h.lBofAt == f[0])
    && (h.lEofAt == 0 || h.lEofAt == f[|f| - 1])
  }

  /** A window of several rows that starts at an end of the table knows that end; one that holds the whole table
      knows both. So a read that finds no row never turns the direction of a longer list around. */
  ghost predicate EndsKnown(f: seq<nat>, l: RecordList, h: Hints, i: nat)
    requires i < |f|
  {
    && (l.size > 1 && Start(f, l, i) == 0 ==> Hint(h, Opposite(l.direction)) == At(f, l.direction, 0))
    && (l.size > 1 && l.size == |f| ==> Hint(h, l.direction) == At(f, l.direction, |f| - 1))
  }

  ghost predicate OnWindow(f: seq<nat>, l: RecordList, h: Hints, i: nat)
  {
    WindowOn(f, l, i) && HintsSound(f, h) && EndsKnown(f, l, h, i)
  }

  /** The list left by a GoTo to a record that is not there. */
  ghost predicate OnNothing(f: seq<nat>, l: RecordList)
  {
    Shape(l) && l.size == 1 && l.pos == 0 && l.slots[0] != 0 && l.slots[0] !in f
  }

  ghost predicate PhantomOk(t: Table, f: seq<nat>, a: Area)
  {
    && a.flags.lLastRec == t.recCount + 1
    && HintsSound(f, a.hints)
    && (OnNothing(f, a.list) || (OnWindow(f, a.list, a.hints, |f| - 1) && a.hints.lEofAt == f[|f| - 1]))
  }

  ghost predicate Simulates(t: Table, f: seq<nat>, a: Area, c: P.Plain)
  {
    match c
    case Fresh => Opened(a)
    case OnRow(i, bof) =>
      && OnWindow(f, a.list, a.hints, i)
      && a.flags == Flags(bof, false, false, false, true, a.flags.lLastRec)
      && (a.flags.lLastRec == 0 || a.flags.lLastRec == t.recCount + 1)
    case Phantom(bof) =>
      PhantomOk(t, f, a) && a.flags == Flags(bof, true, true, false, true, a.flags.lLastRec)
  }

  lemma OnWindowHere(f: seq<nat>, l: RecordList, i: nat)
    requires WindowOn(f, l, i)
    ensures Here(l) == f[i]
  {
  }

  lemma SameLook(t: Table, f: seq<nat>, a: Area, c: P.Plain)
    requires Order(t, f) && Simulates(t, f, a, c) && !c.Fresh?
    ensures Look(a) == P.PlainLook(t, c)
  {
    if c.OnRow? { OnWindowHere(f, a.list, c.i); }
  }

  // ---------------------------------------------------------------- GoTo

  lemma {:induction false} ListIndexMisses(list: seq<nat>, recno: nat)
    ensures ListIndex(list, recno) == |list| <==> recno !in list
    decreases |list|
  {
    if list != [] {
      assert list == [list[0]] + list[1..];
      ListIndexMisses(list[1..], recno);
    }
  }

  lemma {:induction false} ListIndexFirst(list: seq<nat>, recno: nat, i: nat)
    requires i < |list| && list[i] == recno
    requires forall k :: 0 <= k < i ==> list[k] != recno
    ensures ListIndex(list, recno) == i
    decreases i
  {
    if i > 0 {
      assert list[0] != recno;
      ListIndexFirst(list[1..], recno, i - 1);
    }
  }

  /** Moving the position inside the window keeps the invariant, and so does learning an end. */
  lemma WindowMoves(f: seq<nat>, l: RecordList, h: Hints, i: nat, pos: nat, j: nat, g: Hints)
    requires OnWindow(f, l, h, i) && j < |f| && pos < l.size
    requires Turn(f, l.direction, j) == Start(f, l, i) + pos
    requires HintsSound(f, g)
    requires g.lBofAt == h.lBofAt || g.lBofAt == f[0]
    requires g.lEofAt == h.lEofAt || g.lEofAt == f[|f| - 1]
    ensures OnWindow(f, l.(pos := pos), g, j)
  {
    assert Start(f, l.(pos := pos), j) == Start(f, l, i);
  }

  lemma SingleOnWindow(f: seq<nat>, l: RecordList, h: Hints, i: nat)
    requires HintsSound(f, h) && i < |f| && |l.slots| == RECORD_LIST_SIZE
    ensures OnWindow(f, SingleRecord(l, f[i]), h, i)
  {
  }

  lemma GoToFromWindow(f: seq<nat>, l: RecordList, h: Hints, j: nat, i: nat)
    requires Distinct(f) && OnWindow(f, l, h, j) && i < |f|
    ensures OnWindow(f, GoToList(l, f[i]), h, i)
  {
    var k := ListIndex(Window(l), f[i]);
    if k < |Window(l)| {
      assert l.slots[k] == At(f, l.direction, Start(f, l, j) + k);
      assert Turn(f, l.direction, i) == Start(f, l, j) + k;
      WindowMoves(f, l, h, j, k, i, h);
    } else {
      SingleOnWindow(f, l, h, i);
    }
  }

  /** The window before a move: none yet, none that matters, or one on some row. */
  ghost predicate Settled(f: seq<nat>, l: RecordList, h: Hints, j: nat)
  {
    && Shape(l) && HintsSound(f, h)
    && (l.size == 0 || OnNothing(f, l) || OnWindow(f, l, h, j))
  }

  lemma GoToRow(f: seq<nat>, l: RecordList, h: Hints, j: nat, i: nat)
    requires Distinct(f) && Settled(f, l, h, j) && i < |f|
    ensures OnWindow(f, GoToList(l, f[i]), h, i)
  {
    if l.size == 0 || OnNothing(f, l) {
      ListIndexMisses(Window(l), f[i]);
      SingleOnWindow(f, l, h, i);
    } else {
      GoToFromWindow(f, l, h, j, i);
    }
  }

  // ---------------------------------------------------------------- GoTop and GoBottom

  /** A page that holds the rows which direction `d` visits first, as many as GoTop and GoBottom want. */
  ghost predicate IsEdgePage(f: seq<nat>, d: Direction, page: seq<Row>)
  {
    && Min(EDGE_LIST_SIZE, |page|) == Min(EDGE_LIST_SIZE, |f|)
    && forall k :: 0 <= k < |page| ==> k < |f| && page[k].recno == At(f, d, k)
  }

  lemma EdgePageRows(t: Table, f: seq<nat>, d: Direction)
    requires f == Numbers(t)
    ensures IsEdgePage(f, d, EdgePage(t, d))
  {
    WholePage(t.data, Ascending(t, d), ResultSetLimit(t.db, EDGE_LIST_SIZE));
    forall k | 0 <= k < |f| ensures Visits(t, d)[k].recno == At(f, d, k) {
      VisitsAt(t, f, d, k);
    }
  }

  /** Storing a page that begins in the order after `from` rows. */
  lemma StoredList(f: seq<nat>, d: Direction, from: nat, l: RecordList, rows: seq<Row>, n: nat)
    requires |l.slots| == RECORD_LIST_SIZE && 0 < n <= RECORD_LIST_SIZE && n <= |rows| && from + n <= |f|
    requires forall k :: 0 <= k < n ==> rows[k].recno == At(f, d, from + k)
    requires l.direction == d
    ensures var s := StoreRows(l, Recnos(rows[..n]));
            && s.size == n && s.pos == 0 && s.direction == d
            && WindowOn(f, s, Turn(f, d, from)) && Start(f, s, Turn(f, d, from)) == from
  {
  }

  /** The hints after a window was read from an end: that end is known, and the other too if the window reaches it. */
  function EdgeHints(f: seq<nat>, h: Hints, d: Direction): Hints
    requires |f| > 0
  {
    SetHint(if |f| < EDGE_LIST_SIZE then SetHint(h, d, At(f, d, |f| - 1)) else h, Opposite(d), At(f, d, 0))
  }

  lemma EdgeOnWindow(f: seq<nat>, s: RecordList, h: Hints, d: Direction)
    requires HintsSound(f, h) && |f| != EDGE_LIST_SIZE
    requires s.size == Min(EDGE_LIST_SIZE, |f|) && s.pos == 0 && s.direction == d
    requires WindowOn(f, s, Turn(f, d, 0)) && Start(f, s, Turn(f, d, 0)) == 0
    ensures OnWindow(f, s, EdgeHints(f, h, d), Turn(f, d, 0))
  {
  }

  /** What a landing leaves apart from the window. */
  predicate Landed(a: Area, b: Area)
  {
    b.flags == Landing(a.flags) && b.stmts == a.stmts && b.lCurrentRecord == a.lCurrentRecord
  }

  /** The list that GoTop or GoBottom makes of its page. */
  function EdgeList(l: RecordList, d: Direction, page: seq<Row>): RecordList
  {
    StoreRows(l.(direction := d), Recnos(page[..Min(EDGE_LIST_SIZE, |page|)]))
  }

  lemma EdgeListOnWindow(f: seq<nat>, l: RecordList, h: Hints, d: Direction, page: seq<Row>)
    requires IsEdgePage(f, d, page) && HintsSound(f, h) && |f| != EDGE_LIST_SIZE
    requires |l.slots| == RECORD_LIST_SIZE
    ensures OnWindow(f, EdgeList(l, d, page), EdgeHints(f, h, d), Turn(f, d, 0))
  {
    StoredList(f, d, 0, l.(direction := d), page, Min(EDGE_LIST_SIZE, |f|));
    EdgeOnWindow(f, EdgeList(l, d, page), h, d);
  }

  lemma StoredEdge(f: seq<nat>, d: Direction, a: Area, page: seq<Row>)
    requires |f| > 0 && IsEdgePage(f, d, page)
    ensures StorePage(a.(list := a.list.(direction := d)), page, EDGE_LIST_SIZE, true)
         == a.(list := EdgeList(a.list, d, page),
               hints := if |f| < EDGE_LIST_SIZE then SetHint(a.hints, d, At(f, d, |f| - 1)) else a.hints)
  {
  }

  lemma FilledFromEdge(t: Table, f: seq<nat>, a: Area, d: Direction)
    requires Order(t, f) && HintsSound(f, a.hints) && |f| != EDGE_LIST_SIZE
    requires |a.list.slots| == RECORD_LIST_SIZE
    ensures var b := LandOnEdge(t, FillFromEdge(t, a, d), d);
            OnWindow(f, b.list, b.hints, Turn(f, d, 0)) && Landed(a, b)
  {
    EdgePageRows(t, f, d);
    EdgeListOnWindow(f, a.list, a.hints, d, EdgePage(t, d));
    OnWindowHere(f, EdgeList(a.list, d, EdgePage(t, d)), Turn(f, d, 0));
    StoredEdge(f, d, a, EdgePage(t, d));
    assert f[Turn(f, d, 0)] in f;
  }

  lemma GoEdgeByHint(t: Table, f: seq<nat>, a: Area, j: nat, d: Direction)
    requires Order(t, f) && Settled(f, a.list, a.hints, j) && |f| != EDGE_LIST_SIZE
    requires Hint(a.hints, Opposite(d)) != 0
    ensures OnWindow(f, GoEdge(t, a, d).list, GoEdge(t, a, d).hints, Turn(f, d, 0))
    ensures Landed(a, GoEdge(t, a, d))
  {
    var i := Turn(f, d, 0);
    assert Hint(a.hints, Opposite(d)) == f[i];
    assert f[i] in f;
    var b := GoTo(t, a, f[i]);
    GoToRow(f, a.list, a.hints, j, i);
    assert b.list == GoToList(a.list, f[i]) && b.hints == a.hints && Landed(a, b);
    if t.reverse != t.reverseBefore {
      FilledFromEdge(t, f, b, d);
    } else {
      OnWindowHere(f, b.list, i);
      assert SetHint(b.hints, Opposite(d), Here(b.list)) == b.hints;
    }
  }

  lemma GoEdgeLands(t: Table, f: seq<nat>, a: Area, j: nat, d: Direction)
    requires Order(t, f) && Settled(f, a.list, a.hints, j) && |f| != EDGE_LIST_SIZE
    ensures OnWindow(f, GoEdge(t, a, d).list, GoEdge(t, a, d).hints, Turn(f, d, 0))
    ensures Landed(a, GoEdge(t, a, d))
  {
    if Hint(a.hints, Opposite(d)) == 0 {
      FilledFromEdge(t, f, a, d);
    } else {
      GoEdgeByHint(t, f, a, j, d);
    }
  }
}
