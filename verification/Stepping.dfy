/** One raw skip from a row or from the phantom record is one step of the plain cursor. */
module Stepping {
  import opened IndexOrder
  import opened Dialects
  import opened Cursor
  import opened Refinement

  /** The row limit never cuts off the next row: where a dialect limits rows, fewer than RECORD_LIST_SIZE rows
      share the first index column of a row and come before it, in either direction, unless the row is the last. */
  ghost predicate LimitSuffices(t: Table)
  {
    LimitsRows(t.db) ==>
      forall d: Direction, k: nat :: k + 1 < |Visits(t, d)| ==> k - FirstSharing(Visits(t, d), k) < RECORD_LIST_SIZE
  }

  // ---------------------------------------------------------------- the page of a skip

  /** A page that holds the rows direction `q` visits after the first `from` ones, all of them or as many as the limit allows. */
  ghost predicate IsSkipPage(f: seq<nat>, q: Direction, from: nat, limited: bool, page: seq<Row>)
  {
    && from + |page| <= |f|
    && (from + |page| < |f| ==> limited && |page| == RECORD_LIST_SIZE + 1)
    && forall m :: 0 <= m < |page| ==> page[m].recno == At(f, q, from + m)
  }

  lemma PageOfVisits(t: Table, f: seq<nat>, q: Direction, from: nat)
    requires f == Numbers(t) && from <= |f|
    ensures |Visits(t, q)| == |f|
    ensures IsSkipPage(f, q, from, LimitsRows(t.db), Take(Visits(t, q)[from..], ResultSetLimit(t.db, RECORD_LIST_SIZE)))
  {
    forall k | 0 <= k < |f| ensures Visits(t, q)[k].recno == At(f, q, k) {
      VisitsAt(t, f, q, k);
    }
  }

  lemma PageOfSkip(t: Table, f: seq<nat>, q: Direction, k: nat)
    requires TableOk(t) && f == Numbers(t) && k < |f|
    ensures |Visits(t, q)| == |f|
    ensures IsSkipPage(f, q, FirstSharing(Visits(t, q), k), LimitsRows(t.db), SkipPage(t, q, Visits(t, q)[k].key))
  {
    VisitsAreOrdered(t, q);
    LevelOnePage(t.data, Visits(t, q), t.columns, Ascending(t, q), k, ResultSetLimit(t.db, RECORD_LIST_SIZE));
    PageOfVisits(t, f, q, FirstSharing(Visits(t, q), k));
  }

  lemma PageSize(t: Table, q: Direction, key: Key)
    requires LimitsRows(t.db)
    ensures |SkipPage(t, q, key)| <= RECORD_LIST_SIZE + 1
  {
  }

  /** The key that is bound is the key of the current row. */
  lemma BoundKeyIs(t: Table, f: seq<nat>, a: Area, q: Direction, k: nat)
    requires TableOk(t) && f == Numbers(t) && k < |f|
    requires Here(a.list) == At(f, q, k) && (t.source == Buffered ==> !a.flags.clean) && !a.flags.fEof
    ensures |Visits(t, q)| == |f|
    ensures BoundKey(t, a) == Visits(t, q)[k].key
  {
    VisitsAt(t, f, q, k);
    VisitsStored(t, q, k);
    if t.source == Natural {
      var r := Visits(t, q)[k];
      VisitsAreOrdered(t, q);
      assert r in t.data;
    }
  }

  /** With enough limit the current row is in the page, and so is the next one. */
  lemma LimitKeepsNext(t: Table, q: Direction, k: nat)
    requires LimitSuffices(t) && k < |Visits(t, q)| && LimitsRows(t.db)
    ensures k - FirstSharing(Visits(t, q), k) <= RECORD_LIST_SIZE
    ensures k + 1 < |Visits(t, q)| ==> k - FirstSharing(Visits(t, q), k) < RECORD_LIST_SIZE
  {
    var v := Visits(t, q);
    if k > 0 && SameFirstColumn(v[k - 1].key, v[k].key) {
      assert k - 1 - FirstSharing(v, k - 1) < RECORD_LIST_SIZE;
    }
  }

  lemma FoundInPage(f: seq<nat>, q: Direction, from: nat, limited: bool, page: seq<Row>, k: nat)
    requires Distinct(f) && IsSkipPage(f, q, from, limited, page)
    requires from <= k < from + |page|
    ensures RowIndex(page, At(f, q, k)) == k - from
  {
    hide Distinct, At, RowIndex;
    forall i, j | 0 <= i < j < |page| ensures page[i].recno != page[j].recno {
      AtDiffers(f, q, from + i, from + j);
    }
    RowIndexAt(page, k - from);
  }

  // ---------------------------------------------------------------- reading on

  /** The state after one step in direction `q` from row `i`. */
  ghost predicate Stepped(t: Table, f: seq<nat>, b: Area, lastRec: nat, q: Direction, i: nat)
    requires i < |f|
  {
    if Turn(f, q, i) + 1 < |f| then
      && OnWindow(f, b.list, b.hints, Turn(f, q, Turn(f, q, i) + 1))
      && b.flags == Flags(false, false, false, false, true, lastRec)
    else if q == Backward then
      && OnWindow(f, b.list, b.hints, i)
      && b.flags == Flags(true, false, false, false, true, lastRec)
    else
      && PhantomOk(t, f, b)
      && b.flags == Flags(false, true, true, false, true, t.recCount + 1)
  }

  /** A row to step from, with its number as the current record. */
  ghost predicate Ready(f: seq<nat>, a: Area, i: nat)
  {
    && i < |f|
    && a.flags == Flags(false, false, false, false, true, a.flags.lLastRec)
    && a.lCurrentRecord == f[i] != a.flags.lLastRec
  }

  /** A row to step from; its number need not be the current record if reading on will make it so. */
  ghost predicate ReadyToFeed(t: Table, f: seq<nat>, a: Area, i: nat)
  {
    && i < |f|
    && a.flags == Flags(false, false, false, false, true, a.flags.lLastRec)
    && f[i] != a.flags.lLastRec && a.lCurrentRecord != a.flags.lLastRec
    && (a.lCurrentRecord == f[i] || t.source == Synthetic)
  }

  lemma NextWindow(f: seq<nat>, q: Direction, k: nat, l: RecordList, h: Hints, rest: seq<Row>, n: nat, g: Hints)
    requires |l.slots| == RECORD_LIST_SIZE && l.direction == q && HintsSound(f, g)
    requires 0 < n <= RECORD_LIST_SIZE && n <= |rest| && k + 1 + n <= |f|
    requires forall m :: 0 <= m < n ==> rest[m].recno == At(f, q, k + 1 + m)
    ensures OnWindow(f, StoreRows(l, Recnos(rest[..n])), g, Turn(f, q, k + 1))
  {
    StoredList(f, q, k + 1, l, rest, n);
  }

  lemma ReadPageFound(t: Table, a: Area, q: Direction, page: seq<Row>, c: nat)
    requires RowIndex(page, a.lCurrentRecord) == c && c + 1 < |page|
    ensures ReadPage(t, a, q, page) == LoadBuffer(t, StorePage(a, page[c + 1..], RECORD_LIST_SIZE, t.columns == 1))
  {
    var current: nat :| current == RowIndex(page, a.lCurrentRecord);
    assert current == c != |page| && current + 1 != |page|;
  }

  lemma ReadPageEmpty(t: Table, a: Area, q: Direction, page: seq<Row>)
    requires RowIndex(page, a.lCurrentRecord) + 1 == |page|
    ensures ReadPage(t, a, q, page) == PageIsEmpty(t, a, q)
  {
  }

  lemma ReadPageGone(t: Table, a: Area, q: Direction, page: seq<Row>)
    requires RowIndex(page, a.lCurrentRecord) == |page|
    ensures ReadPage(t, a, q, page) == RowIsGone(t, a, q)
  {
  }

  lemma StoredPage(t: Table, f: seq<nat>, a: Area, q: Direction, rest: seq<Row>, k: nat)
    requires HintsSound(f, a.hints) && |a.list.slots| == RECORD_LIST_SIZE && a.list.direction == q
    requires rest != [] && k + 1 + |rest| <= |f|
    requires forall m :: 0 <= m < |rest| ==> rest[m].recno == At(f, q, k + 1 + m)
    requires |rest| < RECORD_LIST_SIZE && t.columns == 1 ==> k + 1 + |rest| == |f|
    ensures var b := StorePage(a, rest, RECORD_LIST_SIZE, t.columns == 1);
            && OnWindow(f, b.list, b.hints, Turn(f, q, k + 1))
            && b.flags == a.flags && Here(b.list) == f[Turn(f, q, k + 1)]
  {
    var n := Min(RECORD_LIST_SIZE, |rest|);
    var b := StorePage(a, rest, RECORD_LIST_SIZE, t.columns == 1);
    assert b.list == StoreRows(a.list, Recnos(rest[..n]));
    NextWindow(f, q, k, a.list, a.hints, rest, n, b.hints);
    OnWindowHere(f, b.list, Turn(f, q, k + 1));
  }

  lemma RestOfPage(f: seq<nat>, q: Direction, from: nat, limited: bool, page: seq<Row>, k: nat)
    requires IsSkipPage(f, q, from, limited, page) && from <= k < from + |page| - 1
    ensures var rest := page[k - from + 1..];
            && rest != [] && k + 1 + |rest| <= |f|
            && (|rest| < RECORD_LIST_SIZE && from == k ==> k + 1 + |rest| == |f|)
            && forall m :: 0 <= m < |rest| ==> rest[m].recno == At(f, q, k + 1 + m)
  {
    var rest := page[k - from + 1..];
    forall m | 0 <= m < |rest| ensures rest[m].recno == At(f, q, k + 1 + m) {
      assert rest[m] == page[k - from + 1 + m];
    }
  }

  lemma ReadsNextPage(t: Table, f: seq<nat>, a: Area, q: Direction, from: nat, page: seq<Row>, k: nat)
    requires Distinct(f) && HintsSound(f, a.hints) && |a.list.slots| == RECORD_LIST_SIZE && a.list.direction == q
    requires IsSkipPage(f, q, from, LimitsRows(t.db), page)
    requires from <= k < from + |page| - 1
    requires t.columns == 1 ==> from == k
    requires Ready(f, a, Turn(f, q, k)) && Exists(t, At(f, q, k + 1))
    ensures Stepped(t, f, ReadPage(t, a, q, page), a.flags.lLastRec, q, Turn(f, q, k))
  {
    FoundInPage(f, q, from, LimitsRows(t.db), page, k);
    ReadPageFound(t, a, q, page, k - from);
    var rest := page[k - from + 1..];
    RestOfPage(f, q, from, LimitsRows(t.db), page, k);
    StoredPage(t, f, a, q, rest, k);
    SteppedNext(t, f, StorePage(a, rest, RECORD_LIST_SIZE, t.columns == 1), q, k);
  }

  lemma SteppedNext(t: Table, f: seq<nat>, b: Area, q: Direction, k: nat)
    requires k + 1 < |f| && OnWindow(f, b.list, b.hints, Turn(f, q, k + 1))
    requires b.flags == Flags(false, false, false, false, true, b.flags.lLastRec)
    requires Exists(t, At(f, q, k + 1)) && Here(b.list) == At(f, q, k + 1)
    ensures Stepped(t, f, LoadBuffer(t, b), b.flags.lLastRec, q, Turn(f, q, k))
  {
  }

  /** A window that knows its ends stays one when its direction is set to the one that just ran out. */
  lemma RunOutWindow(f: seq<nat>, l: RecordList, h: Hints, i: nat, q: Direction, g: Hints)
    requires OnWindow(f, l, h, i) && Turn(f, q, i) + 1 == |f|
    requires Hint(h, q) != f[i]
    requires if l.direction == q then l.pos + 1 == l.size else l.pos == 0
    requires HintsSound(f, g)
    ensures OnWindow(f, l.(direction := q), SetHint(g, q, f[i]), i)
  {
    if l.direction == q {
      assert Start(f, l.(direction := q), i) == Start(f, l, i);
    } else {
      assert Start(f, l, i) == 0;
      assert l.size == 1;
    }
  }

  lemma PageIsEmptyIs(t: Table, a: Area, q: Direction)
    requires a.list.size > 0
    ensures PageIsEmpty(t, a, q)
         == a.(hints := SetHint(a.hints, q, Here(a.list)),
               flags := if q == Forward then Flags(a.flags.fBof, true, true, a.flags.firstinteract, true, t.recCount + 1)
                        else a.flags.(fBof := true, ok := true))
  {
  }

  lemma ReadsNothing(t: Table, f: seq<nat>, a: Area, q: Direction, page: seq<Row>, i: nat, h: Hints, l: RecordList)
    requires Ready(f, a, i) && Turn(f, q, i) + 1 == |f|
    requires RowIndex(page, f[i]) + 1 == |page|
    requires OnWindow(f, l, h, i) && Hint(h, q) != f[i] && a.list == l.(direction := q)
    requires if l.direction == q then l.pos + 1 == l.size else l.pos == 0
    requires HintsSound(f, a.hints)
    ensures Stepped(t, f, ReadPage(t, a, q, page), a.flags.lLastRec, q, i)
  {
    RunOutWindow(f, l, h, i, q, a.hints);
    OnWindowHere(f, l, i);
    ReadPageEmpty(t, a, q, page);
    PageIsEmptyIs(t, a, q);
    RanOut(t, f, a, q, i);
  }

  lemma RanOut(t: Table, f: seq<nat>, a: Area, q: Direction, i: nat)
    requires Ready(f, a, i) && Turn(f, q, i) + 1 == |f|
    requires OnWindow(f, a.list, SetHint(a.hints, q, f[i]), i)
    ensures Stepped(t, f,
                    a.(hints := SetHint(a.hints, q, f[i]),
                       flags := if q == Forward then Flags(a.flags.fBof, true, true, a.flags.firstinteract, true, t.recCount + 1)
                                else a.flags.(fBof := true, ok := true)),
                    a.flags.lLastRec, q, i)
  {
  }

  // ---------------------------------------------------------------- one step

  lemma PreparedHints(f: seq<nat>, a: Area, q: Direction)
    requires HintsSound(f, a.hints)
    ensures HintsSound(f, Prepare(a, q).hints)
    ensures Prepare(a, q).list == a.list && Prepare(a, q).flags == a.flags && Prepare(a, q).lCurrentRecord == a.lCurrentRecord
  {
  }

  /** What reading on starts from. */
  function Fed(t: Table, a: Area, q: Direction): Area
  {
    Feed(t, Prepare(a.(list := a.list.(direction := q)), q))
  }

  lemma FedIsReady(t: Table, f: seq<nat>, a: Area, q: Direction, i: nat)
    requires OnWindow(f, a.list, a.hints, i) && ReadyToFeed(t, f, a, i)
    ensures HintsSound(f, Fed(t, a, q).hints) && Ready(f, Fed(t, a, q), i)
    ensures Fed(t, a, q).list == a.list.(direction := q) && Fed(t, a, q).flags == a.flags
    ensures Here(Fed(t, a, q).list) == f[i]
  {
    OnWindowHere(f, a.list, i);
    PreparedHints(f, a.(list := a.list.(direction := q)), q);
  }

  /** When the window does not have the next row, reading it from the table does one step. */
  lemma RefillSteps(t: Table, f: seq<nat>, a: Area, q: Direction, i: nat)
    requires TableOk(t) && Order(t, f) && LimitSuffices(t)
    requires OnWindow(f, a.list, a.hints, i) && ReadyToFeed(t, f, a, i)
    requires if a.list.direction == q then a.list.pos + 1 == a.list.size else a.list.pos == 0
    requires Hint(a.hints, q) != f[i]
    ensures Stepped(t, f, Refill(t, a, q), a.flags.lLastRec, q, i)
  {
    FedIsReady(t, f, a, q, i);
    ReadsOn(t, f, a, Fed(t, a, q), q, i, Turn(f, q, i));
  }

  lemma ReadsOn(t: Table, f: seq<nat>, a: Area, c: Area, q: Direction, i: nat, k: nat)
    requires TableOk(t) && Order(t, f) && LimitSuffices(t) && i < |f| && k == Turn(f, q, i)
    requires OnWindow(f, a.list, a.hints, i)
    requires if a.list.direction == q then a.list.pos + 1 == a.list.size else a.list.pos == 0
    requires Hint(a.hints, q) != f[i]
    requires c.list == a.list.(direction := q) && HintsSound(f, c.hints) && Ready(f, c, i) && Here(c.list) == f[i]
    ensures Stepped(t, f, ReadOn(t, c, q), c.flags.lLastRec, q, i)
  {
    assert Turn(f, q, k) == i && At(f, q, k) == f[i];
    BoundKeyIs(t, f, c, q, k);
    PageOfSkip(t, f, q, k);
    ReadsPage(t, f, a, c, q, k);
  }

  lemma ReadsPage(t: Table, f: seq<nat>, a: Area, c: Area, q: Direction, k: nat)
    requires TableOk(t) && Order(t, f) && LimitSuffices(t) && k < |f| == |Visits(t, q)|
    requires OnWindow(f, a.list, a.hints, Turn(f, q, k))
    requires if a.list.direction == q then a.list.pos + 1 == a.list.size else a.list.pos == 0
    requires Hint(a.hints, q) != At(f, q, k)
    requires c.list == a.list.(direction := q) && HintsSound(f, c.hints) && Ready(f, c, Turn(f, q, k))
    requires BoundKey(t, c) == Visits(t, q)[k].key
    requires IsSkipPage(f, q, FirstSharing(Visits(t, q), k), LimitsRows(t.db), SkipPage(t, q, BoundKey(t, c)))
    ensures Stepped(t, f, ReadOn(t, c, q), c.flags.lLastRec, q, Turn(f, q, k))
  {
    var from := FirstSharing(Visits(t, q), k);
    var page := SkipPage(t, q, BoundKey(t, c));
    if k + 1 < |f| {
      ReadsMore(t, f, c, q, from, k, page);
    } else {
      FoundInPage(f, q, from, LimitsRows(t.db), page, k);
      ReadsNothing(t, f, c, q, page, Turn(f, q, k), a.hints, a.list);
    }
  }

  lemma ReadsMore(t: Table, f: seq<nat>, c: Area, q: Direction, from: nat, k: nat, page: seq<Row>)
    requires TableOk(t) && Order(t, f) && LimitSuffices(t) && k + 1 < |f| == |Visits(t, q)|
    requires HintsSound(f, c.hints) && Ready(f, c, Turn(f, q, k)) && |c.list.slots| == RECORD_LIST_SIZE && c.list.direction == q
    requires from == FirstSharing(Visits(t, q), k) && IsSkipPage(f, q, from, LimitsRows(t.db), page)
    ensures Stepped(t, f, ReadPage(t, c, q, page), c.flags.lLastRec, q, Turn(f, q, k))
  {
    if LimitsRows(t.db) { LimitKeepsNext(t, q, k); }
    if t.columns == 1 {
      VisitsAreOrdered(t, q);
      SingleColumnSharesNothing(Visits(t, q), Ascending(t, q), k);
    }
    assert At(f, q, k + 1) in f;
    ReadsNextPage(t, f, c, q, from, page, k);
  }

  lemma MovesInside(f: seq<nat>, l: RecordList, h: Hints, q: Direction, i: nat)
    requires OnWindow(f, l, h, i) && 0 <= Supposed(l, q) < l.size
    ensures Turn(f, q, i) + 1 < |f|
    ensures OnWindow(f, l.(pos := Supposed(l, q)), h, Turn(f, q, Turn(f, q, i) + 1))
  {
    WindowMoves(f, l, h, i, Supposed(l, q), Turn(f, q, Turn(f, q, i) + 1), h);
  }

  lemma KnowsTheEnd(f: seq<nat>, l: RecordList, h: Hints, q: Direction, i: nat)
    requires OnWindow(f, l, h, i) && Distinct(f) && f[i] != 0 && !(0 <= Supposed(l, q) < l.size)
    requires Slot(l, if Supposed(l, q) < 0 then 0 else l.pos) == Hint(h, q)
    ensures Turn(f, q, i) + 1 == |f| && Hint(h, q) == f[i]
  {
    OnWindowHere(f, l, i);
  }

  /** Inside the window, and at an end that a hint knows, the cache does one step. */
  lemma CacheSteps(t: Table, f: seq<nat>, a: Area, q: Direction, i: nat)
    requires Order(t, f) && OnWindow(f, a.list, a.hints, i) && ReadyToFeed(t, f, a, i)
    requires SkipOnCache(t, a, q).0
    ensures Stepped(t, f, SkipOnCache(t, a, q).1, a.flags.lLastRec, q, i)
  {
    if 0 <= Supposed(a.list, q) < a.list.size {
      MovesInside(f, a.list, a.hints, q, i);
    } else {
      KnowsTheEnd(f, a.list, a.hints, q, i);
    }
  }

  lemma CacheMisses(t: Table, f: seq<nat>, a: Area, q: Direction, i: nat)
    requires Order(t, f) && OnWindow(f, a.list, a.hints, i)
    requires !SkipOnCache(t, a, q).0
    ensures SkipOnCache(t, a, q).1 == a
    ensures if a.list.direction == q then a.list.pos + 1 == a.list.size else a.list.pos == 0
    ensures Hint(a.hints, q) != f[i]
  {
    OnWindowHere(f, a.list, i);
    var s := Supposed(a.list, q);
    if 0 <= s < a.list.size { SlotExists(t, f, a.list, i, s); }
  }

  lemma SlotExists(t: Table, f: seq<nat>, l: RecordList, i: nat, s: nat)
    requires Order(t, f) && WindowOn(f, l, i) && s < l.size
    ensures Exists(t, l.slots[s])
  {
    assert l.slots[s] == At(f, l.direction, Start(f, l, i) + s);
  }

  /** A raw skip from a row is one step of the plain cursor. */
  lemma RawSkipSteps(t: Table, f: seq<nat>, a: Area, q: Direction, i: nat)
    requires TableOk(t) && Order(t, f) && LimitSuffices(t)
    requires OnWindow(f, a.list, a.hints, i) && ReadyToFeed(t, f, a, i)
    ensures Stepped(t, f, SkipRaw(t, a, q), a.flags.lLastRec, q, i)
  {
    if SkipOnCache(t, a, q).0 {
      CacheSteps(t, f, a, q, i);
    } else {
      CacheMisses(t, f, a, q, i);
      RefillSteps(t, f, a, q, i);
    }
  }
}
