/** An UPDATE of an index column: the current row moves in the order, the record list is cut to it, the hints stay. */
module Updates {
  import opened IndexOrder
  import opened Dialects
  import opened Cursor
  import opened Refinement
  import opened Stepping
  import opened Runs
  import opened Exactness
  import P = PlainCursor

  // ---------------------------------------------------------------- the order before and after

  /** The table after the index columns of record `recno` were given the values `key`. */
  function Updated(t: Table, recno: nat, key: Key): Table
  {
    t.(rows := t.rows[recno := key],
       data := seq(|t.data|, k requires 0 <= k < |t.data| => if t.data[k].recno == recno then Row(recno, key) else t.data[k]))
  }

  function Without<T>(s: seq<T>, i: nat): (r: seq<T>)
    requires i < |s|
    ensures |r| == |s| - 1
  {
    s[..i] + s[i + 1..]
  }

  /** Two ordered sequences of the same rows are the same. */
  lemma {:induction false} SameOrder(a: seq<Row>, b: seq<Row>, columns: nat, asc: bool)
    requires Ordered(a, columns, asc) && Ordered(b, columns, asc) && forall x :: x in a <==> x in b
    ensures a == b
    decreases |a|
  {
    assert a == [] <==> b == [] by {
      if a != [] { assert a[0] in a && a[0] in b; }
      if b != [] { assert b[0] in b && b[0] in a; }
    }
    if a != [] {
      SameFirst(a, b, columns, asc);
      TailMembers(a, columns, asc);
      TailMembers(b, columns, asc);
      SameOrder(a[1..], b[1..], columns, asc);
      assert a == [a[0]] + a[1..] && b == [b[0]] + b[1..];
    }
  }

  lemma SameFirst(a: seq<Row>, b: seq<Row>, columns: nat, asc: bool)
    requires Ordered(a, columns, asc) && Ordered(b, columns, asc) && a != [] && b != []
    requires a[0] in b && b[0] in a
    ensures a[0] == b[0]
  {
    var k :| 0 <= k < |b| && b[k] == a[0];
    var l :| 0 <= l < |a| && a[l] == b[0];
    if k > 0 && l > 0 {
      assert Before(asc, b[0].key, a[0].key) && Before(asc, a[0].key, b[0].key);
      if asc { LessIsAsymmetric(a[0].key, b[0].key); } else { LessIsAsymmetric(b[0].key, a[0].key); }
    }
  }

  lemma TailMembers(a: seq<Row>, columns: nat, asc: bool)
    requires Ordered(a, columns, asc) && a != []
    ensures Ordered(a[1..], columns, asc)
    ensures forall x :: x in a[1..] <==> x in a && x != a[0]
  {
    assert a == [a[0]] + a[1..];
    forall k | 0 < k < |a| ensures a[k] != a[0] {
      OrderedDiffer(a, columns, asc, 0, k);
    }
    forall x | x in a[1..] ensures x != a[0] {
      var k :| 0 <= k < |a[1..]| && a[1..][k] == x;
      assert x == a[k + 1];
    }
  }

  lemma OrderedWithout(v: seq<Row>, columns: nat, asc: bool, i: nat)
    requires Ordered(v, columns, asc) && i < |v|
    ensures Ordered(Without(v, i), columns, asc)
  {
    var w := Without(v, i);
    forall k | 0 <= k < |w| ensures w[k] == v[if k < i then k else k + 1] {
    }
  }

  lemma WithoutMembers(v: seq<Row>, i: nat)
    requires RecnosDiffer(v) && i < |v|
    ensures forall x :: x in Without(v, i) <==> x in v && x.recno != v[i].recno
  {
    var w := Without(v, i);
    forall x | x in v && x.recno != v[i].recno ensures x in w {
      var k :| 0 <= k < |v| && v[k] == x;
      assert w[if k < i then k else k - 1] == x;
    }
    forall x | x in w ensures x in v && x.recno != v[i].recno {
      var k :| 0 <= k < |w| && w[k] == x;
      assert x == v[if k < i then k else k + 1];
    }
  }

  lemma UpdatedMembers(t: Table, recno: nat, key: Key, x: Row)
    requires x.recno != recno
    ensures x in Updated(t, recno, key).data <==> x in t.data
  {
    var data := Updated(t, recno, key).data;
    if x in t.data {
      var k :| 0 <= k < |t.data| && t.data[k] == x;
      assert data[k] == x;
    }
    if x in data {
      var k :| 0 <= k < |data| && data[k] == x;
      assert t.data[k] == x;
    }
  }

  /** The other rows keep their order. */
  lemma OthersStay(t: Table, key: Key, i: nat, j: nat)
    requires TableOk(t) && i < |Numbers(t)|
    requires var u := Updated(t, Numbers(t)[i], key); TableOk(u) && j < |Numbers(u)| && Numbers(u)[j] == Numbers(t)[i]
    ensures var u := Updated(t, Numbers(t)[i], key);
            |Numbers(u)| == |Numbers(t)| && Without(Numbers(u), j) == Without(Numbers(t), i)
  {
    var u := Updated(t, Numbers(t)[i], key);
    var v, w, up := Visits(t, Forward), Visits(u, Forward), Ascending(t, Forward);
    VisitsAreOrdered(t, Forward);
    VisitsAreOrdered(u, Forward);
    SameOthers(t, u, key, i, j);
    OrderedWithout(v, t.columns, up, i);
    OrderedWithout(w, t.columns, up, j);
    SameOrder(Without(v, i), Without(w, j), t.columns, up);
    RecnosOfWithout(v, i);
    RecnosOfWithout(w, j);
  }

  lemma SameOthers(t: Table, u: Table, key: Key, i: nat, j: nat)
    requires TableOk(t) && TableOk(u) && i < |Numbers(t)| && u == Updated(t, Numbers(t)[i], key)
    requires j < |Numbers(u)| && Numbers(u)[j] == Numbers(t)[i]
    ensures forall x :: x in Without(Visits(t, Forward), i) <==> x in Without(Visits(u, Forward), j)
  {
    hide TableOk, Visits;
    VisitsAreOrdered(t, Forward);
    VisitsAreOrdered(u, Forward);
    WithoutMembers(Visits(t, Forward), i);
    WithoutMembers(Visits(u, Forward), j);
    forall x: Row | x.recno != Numbers(t)[i] ensures x in u.data <==> x in t.data {
      UpdatedMembers(t, Numbers(t)[i], key, x);
    }
  }

  lemma RecnosOfWithout(v: seq<Row>, i: nat)
    requires i < |v|
    ensures Recnos(Without(v, i)) == Without(Recnos(v), i)
  {
  }

  /** So the ends of the order stay the ends exactly when the row moves neither to them nor away from them. */
  lemma EndsStay(f: seq<nat>, g: seq<nat>, i: nat, j: nat)
    requires Distinct(f) && i < |f| == |g| && j < |g| && f[i] == g[j] && Without(f, i) == Without(g, j)
    ensures g[0] == f[0] <==> (i == 0 <==> j == 0)
    ensures g[|g| - 1] == f[|f| - 1] <==> (i + 1 == |f| <==> j + 1 == |g|)
  {
    var n := |f| - 1;
    if n > 0 {
      assert Without(f, i)[0] == f[if i == 0 then 1 else 0] && Without(g, j)[0] == g[if j == 0 then 1 else 0];
      assert Without(f, i)[n - 1] == f[if i == n then n - 1 else n];
      assert Without(g, j)[n - 1] == g[if j == n then n - 1 else n];
    }
  }

  lemma HintsStay(f: seq<nat>, g: seq<nat>, i: nat, j: nat, h: Hints)
    requires Distinct(f) && i < |f| == |g| && j < |g| && f[i] == g[j] && Without(f, i) == Without(g, j) && HintsSound(f, h)
    ensures HintsSound(g, h) <==> && (h.lBofAt == 0 || (i == 0 <==> j == 0))
                                  && (h.lEofAt == 0 || (i + 1 == |f| <==> j + 1 == |g|))
  {
    EndsStay(f, g, i, j);
  }

  // ---------------------------------------------------------------- what a program sees afterwards

  /** The workarea after the UPDATE. */
  function Cut(a: Area): Area
  {
    a.(list := Collapsed(a.list))
  }

  lemma CutSimulates(u: Table, g: seq<nat>, a: Area, j: nat, bof: bool)
    requires j < |g| && HintsSound(g, a.hints) && Shape(a.list) && Here(a.list) == g[j]
    requires a.flags == Flags(bof, false, false, false, true, a.flags.lLastRec)
    requires a.flags.lLastRec == 0 || a.flags.lLastRec == u.recCount + 1
    ensures Simulates(u, g, Cut(a), P.OnRow(j, bof))
  {
  }

  /** On a single record that a hint takes for an end: a skip over that end is not done. */
  ghost predicate OnStaleEnd(u: Table, g: seq<nat>, c: Area, q: Direction, k: nat)
  {
    && k < |g| && c.list.size == 1 && c.list.pos == 0 && Here(c.list) == g[k] == Hint(c.hints, q)
    && c.flags == Landing(c.flags) && (c.flags.lLastRec == 0 || c.flags.lLastRec == u.recCount + 1)
  }

  lemma StaleEndStops(u: Table, g: seq<nat>, c: Area, q: Direction, k: nat)
    requires Order(u, g) && OnStaleEnd(u, g, c, q, k)
    ensures var seen := Look(Do(u, c, SkipBy(OneStep(q)))); if q == Forward then seen.eof else seen.bof
  {
    SkipFromIs(u, c, OneStep(q));
    assert SkipOnCache(u, SkipStart(c), q) == (true, RunOut(u, SkipStart(c), q));
  }

  lemma PlainGoesOn(u: Table, g: seq<nat>, q: Direction, k: nat)
    requires k < |g| && Turn(g, q, k) + 1 < |g| && Order(u, g)
    ensures var seen := P.PlainLook(u, P.PlainDo(u, P.OnRow(k, false), SkipBy(OneStep(q)))); !seen.eof && !seen.bof
  {
  }

  lemma GoToStaleEnd(u: Table, g: seq<nat>, b: Area, q: Direction, k: nat)
    requires Order(u, g) && k < |g| && Hint(b.hints, q) == g[k] && Shape(b.list) && b.list.size == 1 && b.list.pos == 0
    requires b.flags.lLastRec == 0 || b.flags.lLastRec == u.recCount + 1
    ensures OnStaleEnd(u, g, GoTo(u, b, g[k]), q, k)
  {
    assert g[k] in g;
  }

  /** Going to the row that a hint wrongly takes for an end, and on, shows that end. */
  lemma StaleHintShows(u: Table, g: seq<nat>, b: Area, c: P.Plain, q: Direction, k: nat)
    requires Order(u, g) && k < |g| && Turn(g, q, k) + 1 < |g|
    requires Hint(b.hints, q) == g[k] && Shape(b.list) && b.list.size == 1 && b.list.pos == 0
    requires b.flags.lLastRec == 0 || b.flags.lLastRec == u.recCount + 1
    ensures Differs(u, b, c, [GoToRecord(g[k])] + [SkipBy(OneStep(q))])
  {
    hide Order, Differs, GoTo;
    GoToStaleEnd(u, g, b, q, k);
    StaleEndStops(u, g, GoTo(u, b, g[k]), q, k);
    PlainGoesOn(u, g, q, k);
    PlainGoesTo(u, g, c, k);
    DiffersNow(u, GoTo(u, b, g[k]), P.OnRow(k, false), SkipBy(OneStep(q)));
    DiffersLater(u, b, c, GoToRecord(g[k]), [SkipBy(OneStep(q))]);
  }

  ghost predicate RunsRight(u: Table, b: Area, c: P.Plain)
  {
    forall moves: seq<Move> :: SingleSteps(moves) ==> Run(u, b, moves) == P.PlainRun(u, c, moves)
  }

  lemma HintsSoundRunRight(u: Table, g: seq<nat>, a: Area, j: nat, bof: bool)
    requires TableOk(u) && Order(u, g) && WindowWorks(u) && j < |g| && Shape(a.list) && Here(a.list) == g[j]
    requires a.flags == Flags(bof, false, false, false, true, a.flags.lLastRec)
    requires a.flags.lLastRec == 0 || a.flags.lLastRec == u.recCount + 1
    requires HintsSound(g, a.hints)
    ensures RunsRight(u, Cut(a), P.OnRow(j, bof))
  {
    CutSimulates(u, g, a, j, bof);
    forall moves: seq<Move> | SingleSteps(moves)
      ensures Run(u, Cut(a), moves) == P.PlainRun(u, P.OnRow(j, bof), moves)
    {
      RunSimulates(u, g, Cut(a), P.OnRow(j, bof), moves);
    }
  }

  lemma StaleHintRunsWrong(u: Table, g: seq<nat>, b: Area, c: P.Plain, q: Direction)
    requires Order(u, g) && |g| > 0 && Hint(b.hints, q) in g && Hint(b.hints, q) != At(g, q, |g| - 1)
    requires Shape(b.list) && b.list.size == 1 && b.list.pos == 0
    requires b.flags.lLastRec == 0 || b.flags.lLastRec == u.recCount + 1
    ensures !RunsRight(u, b, c)
  {
    var k :| 0 <= k < |g| && g[k] == Hint(b.hints, q);
    assert Turn(g, q, k) + 1 < |g|;
    StaleHintShows(u, g, b, c, q, k);
    var moves := [GoToRecord(g[k])] + [SkipBy(OneStep(q))];
    assert moves[0] == GoToRecord(g[k]) && moves[1] == SkipBy(OneStep(q)) && g[k] != 0;
    assert SingleSteps(moves);
  }

  /** After an UPDATE that moves the current row from place `i` to place `j` of the order, every run of single steps shows what
      it should exactly when the hints that are set keep their ends: when the row was first, or is now, it was and is, and
      the same for the last one. */
  lemma UpdateAgreesExactly(t: Table, a: Area, i: nat, bof: bool, key: Key, j: nat)
    requires TableOk(t) && Simulates(t, Numbers(t), a, P.OnRow(i, bof)) && i < |Numbers(t)|
    requires var u := Updated(t, Numbers(t)[i], key);
             TableOk(u) && WindowWorks(u) && j < |Numbers(u)| && Numbers(u)[j] == Numbers(t)[i]
    ensures RunsRight(Updated(t, Numbers(t)[i], key), Cut(a), P.OnRow(j, bof))
       <==> && (a.hints.lBofAt == 0 || (i == 0 <==> j == 0))
            && (a.hints.lEofAt == 0 || (i + 1 == |t.data| <==> j + 1 == |t.data|))
  {
    hide TableOk, WindowWorks, RunsRight, EndsKnown, OrderBy, Without, Numbers, Run, P.PlainRun;
    var f, u := Numbers(t), Updated(t, Numbers(t)[i], key);
    var g := Numbers(u);
    OrderHolds(t);
    OrderHolds(u);
    OthersStay(t, key, i, j);
    HintsStay(f, g, i, j, a.hints);
    EndsExist(t, u, f, g, i, key);
    OnWindowHere(f, a.list, i);
    if HintsSound(g, a.hints) {
      HintsSoundRunRight(u, g, a, j, bof);
    } else if a.hints.lEofAt != 0 && a.hints.lEofAt != g[|g| - 1] {
      StaleHintRunsWrong(u, g, Cut(a), P.OnRow(j, bof), Forward);
    } else {
      StaleHintRunsWrong(u, g, Cut(a), P.OnRow(j, bof), Backward);
    }
  }

  /** The rows are the same records. */
  lemma EndsExist(t: Table, u: Table, f: seq<nat>, g: seq<nat>, i: nat, key: Key)
    requires Order(t, f) && Order(u, g) && i < |f| && u == Updated(t, f[i], key)
    ensures f[0] in g && f[|f| - 1] in g
  {
    assert f[i] in f && f[0] in f && f[|f| - 1] in f;
    assert Exists(t, f[i]) && Exists(t, f[0]) && Exists(t, f[|f| - 1]);
  }

  // ---------------------------------------------------------------- an input

  /** GoBottom, then an UPDATE that moves the last row to the front: a skip from it shows EOF, although all other rows follow. */
  lemma BottomToTop(t: Table, a: Area, key: Key)
    requires TableOk(t) && WindowWorks(t) && Opened(a) && |t.data| > 1
    requires var u := Updated(t, Numbers(t)[|t.data| - 1], key); TableOk(u) && Numbers(u)[0] == Numbers(t)[|t.data| - 1]
    ensures var u := Updated(t, Numbers(t)[|t.data| - 1], key);
            && Look(Do(u, Cut(GoEdge(t, a, Backward)), SkipBy(1))).eof
            && P.PlainLook(u, P.PlainDo(u, P.OnRow(0, false), SkipBy(1))) == Seen(Numbers(u)[1], false, false, true)
  {
    hide TableOk, LimitSuffices;
    OrderHolds(t);
    var f, u := Numbers(t), Updated(t, Numbers(t)[|t.data| - 1], key);
    OrderHolds(u);
    var b := GoEdge(t, a, Backward);
    EdgeSimulates(t, f, a, P.Fresh, Backward);
    OnWindowHere(f, b.list, |f| - 1);
    BottomIsHinted(t, a);
    StaleEndStops(u, Numbers(u), Cut(b), Forward, 0);
  }

  lemma BottomIsHinted(t: Table, a: Area)
    requires GoEdge(t, a, Backward).list.size > 0
    ensures GoEdge(t, a, Backward).hints.lEofAt == Here(GoEdge(t, a, Backward).list)
  {
  }

  /** A table of two rows. */
  function Pair(one: int, two: int): Table
  {
    Table(map[1 := [one], 2 := [two]], [Row(1, [one]), Row(2, [two])], 1, false, false, Buffered, MySql, 2, [0])
  }

  lemma PairIsOk(one: int, two: int)
    requires one != two
    ensures TableOk(Pair(one, two)) && WindowWorks(Pair(one, two))
  {
    var t := Pair(one, two);
    assert t.data[0] in t.data && t.data[1] in t.data;
  }

  lemma PairOrder(one: int, two: int)
    requires one != two
    ensures Numbers(Pair(one, two)) == if one < two then [1, 2] else [2, 1]
  {
    var a, b := Row(1, [one]), Row(2, [two]);
    SortOfCons(b, []);
    SortOfCons(a, [b]);
    assert [a, b] == [a] + [b] && [b] == [b] + [];
    assert Less(a.key, b.key) <==> one < two by {
      assert LessAt(a.key, b.key, 0) <==> one < two;
    }
    assert Insert(a, []) == [a] && [b][1..] == [];
  }

  /** Going to the bottom, giving row 2 a key before that of row 1, and skipping on shows EOF, where row 1 comes. */
  lemma PairFails(a: Area)
    requires Opened(a)
    ensures var u := Updated(Pair(1, 2), 2, [0]);
            && Look(Do(u, Cut(GoEdge(Pair(1, 2), a, Backward)), SkipBy(1))).eof
            && P.PlainLook(u, P.PlainDo(u, P.OnRow(0, false), SkipBy(1))) == Seen(1, false, false, true)
  {
    hide TableOk, WindowWorks, Numbers;
    var u := Updated(Pair(1, 2), 2, [0]);
    assert u == Pair(1, 0);
    PairIsOk(1, 2);
    PairIsOk(1, 0);
    PairOrder(1, 2);
    PairOrder(1, 0);
    BottomToTop(Pair(1, 2), a, [0]);
  }
}
