/** What a program is shown on its way through a table: every row once, in the order of the index, from either end. */
module Listing {
  import opened IndexOrder
  import opened Cursor
  import opened Refinement
  import opened Stepping
  import opened Runs
  import P = PlainCursor

  function OneStep(d: Direction): Move
  {
    SkipBy(if d == Forward then 1 else -1)
  }

  function Steps(d: Direction, n: nat): (moves: seq<Move>)
    ensures |moves| == n && forall k :: 0 <= k < n ==> moves[k] == OneStep(d)
  {
    seq(n, _ => OneStep(d))
  }

  /** To one end of the table, and then `n` single skips towards the other. */
  function Through(d: Direction, n: nat): (moves: seq<Move>)
    ensures |moves| == n + 1 && SingleSteps(moves)
  {
    [if d == Forward then GoTop else GoBottom] + Steps(d, n)
  }

  // ---------------------------------------------------------------- the plain cursor on its way

  /** Where the plain cursor is after `k` skips: past the last row it visits it stays at the end. */
  function PlainAt(f: seq<nat>, d: Direction, k: nat): P.Plain
  {
    if k < |f| then P.OnRow(Turn(f, d, k), false)
    else if d == Forward then P.Phantom(false)
    else P.OnRow(0, true)
  }

  lemma PlainStep(t: Table, f: seq<nat>, d: Direction, k: nat)
    requires f == Numbers(t) && |f| > 0
    ensures P.PlainDo(t, PlainAt(f, d, k), OneStep(d)) == PlainAt(f, d, k + 1)
  {
  }

  lemma {:induction false} PlainSteps(t: Table, f: seq<nat>, d: Direction, k: nat, n: nat, m: nat)
    requires f == Numbers(t) && |f| > 0 && m < n
    ensures P.PlainRun(t, PlainAt(f, d, k), Steps(d, n))[m] == P.PlainLook(t, PlainAt(f, d, k + m + 1))
    decreases n
  {
    hide P.PlainDo, P.PlainLook, PlainAt, Numbers;
    PlainStep(t, f, d, k);
    assert Steps(d, n)[1..] == Steps(d, n - 1);
    if m > 0 { PlainSteps(t, f, d, k + 1, n - 1, m - 1); }
  }

  lemma PlainThrough(t: Table, f: seq<nat>, d: Direction, n: nat, m: nat)
    requires f == Numbers(t) && |f| > 0 && m <= n
    ensures P.PlainRun(t, P.Fresh, Through(d, n))[m] == P.PlainLook(t, PlainAt(f, d, m))
  {
    var moves := Through(d, n);
    PlainEdgeIs(t, f, P.Fresh, d, moves[0]);
    assert moves[1..] == Steps(d, n);
    if m > 0 { PlainSteps(t, f, d, 0, n, m - 1); }
  }

  /** `n` rows in direction `d`, as a skip counts them. */
  function RowsOn(d: Direction, n: int): int
  {
    if d == Forward then n else -n
  }

  /** `n` single skips from where the plain cursor is. */
  function Skipped(t: Table, c: P.Plain, d: Direction, n: nat): P.Plain
  {
    if n == 0 then c else P.PlainDo(t, Skipped(t, c, d, n - 1), OneStep(d))
  }

  /** A skip by several rows is meant to be as many single skips. */
  lemma {:induction false} PlainSkipIsSteps(t: Table, c: P.Plain, d: Direction, n: nat)
    requires !c.Fresh? && n > 0 && |Numbers(t)| > 0 && (c.OnRow? ==> c.i < |Numbers(t)|)
    ensures P.PlainDo(t, c, SkipBy(RowsOn(d, n))) == Skipped(t, c, d, n)
    decreases n
  {
    if n == 1 {
      assert Skipped(t, c, d, 0) == c;
    } else {
      PlainSkipIsSteps(t, c, d, n - 1);
    }
  }

  // ---------------------------------------------------------------- what is shown

  /** One key after another in the order of the index. */
  predicate Follows(t: Table, a: Key, b: Key)
    requires |a| == |b|
  {
    if t.reverse then Less(b, a) else Less(a, b)
  }

  lemma RowsFollow(t: Table, i: nat, j: nat)
    requires TableOk(t) && i < j < |IndexRows(t)|
    ensures |IndexRows(t)[i].key| == |IndexRows(t)[j].key| && Follows(t, IndexRows(t)[i].key, IndexRows(t)[j].key)
  {
    OrderByIsOrdered(t.data, t.columns, !t.reverse);
  }

  /** The record numbers that are shown are those of rows. */
  ghost predicate ShowsRow(t: Table, seen: Seen)
  {
    seen.recno in t.rows && seen == Seen(seen.recno, false, false, true)
  }

  lemma LookAt(t: Table, f: seq<nat>, d: Direction, k: nat)
    requires TableOk(t) && f == Numbers(t) && k < |f|
    ensures ShowsRow(t, P.PlainLook(t, PlainAt(f, d, k)))
    ensures P.PlainLook(t, PlainAt(f, d, k)).recno == At(f, d, k)
    ensures t.rows[At(f, d, k)] == IndexRows(t)[Turn(f, d, k)].key
  {
    VisitsStored(t, Forward, Turn(f, d, k));
  }

  lemma ShownAt(t: Table, a: Area, d: Direction, n: nat, m: nat)
    requires TableOk(t) && WindowWorks(t) && Opened(a) && m <= n
    ensures Run(t, a, Through(d, n))[m] == P.PlainLook(t, PlainAt(Numbers(t), d, m))
  {
    hide TableOk, WindowWorks, Opened;
    RunsAgree(t, a, Through(d, n));
    NumbersCount(t);
    PlainThrough(t, Numbers(t), d, n, m);
  }

  lemma NumbersCount(t: Table)
    requires WindowWorks(t)
    ensures |Numbers(t)| == |t.data| > 0
  {
  }

  /** As long as there are rows, a run from an end of the table shows rows, and after that the end. */
  lemma EndsAfterRows(t: Table, a: Area, d: Direction, n: nat, m: nat)
    requires TableOk(t) && WindowWorks(t) && Opened(a) && m <= n
    ensures var seen := Run(t, a, Through(d, n))[m];
            if m < |t.data| then ShowsRow(t, seen)
            else if d == Forward then seen == Seen(t.recCount + 1, false, true, true)
            else seen.bof && !seen.eof && seen.ok && seen.recno == Run(t, a, Through(d, n))[|t.data| - 1].recno
  {
    hide TableOk, WindowWorks, Opened, Run;
    NumbersCount(t);
    ShownAt(t, a, d, n, m);
    if m < |t.data| {
      LookAt(t, Numbers(t), d, m);
    } else if d == Backward {
      ShownAt(t, a, d, n, |t.data| - 1);
    }
  }

  /** From GoTop on by single skips, the keys come in the order of the index, upwards unless it is reversed; from GoBottom
      on they come in the opposite order. */
  lemma KeysInOrder(t: Table, a: Area, d: Direction, n: nat, i: nat, j: nat)
    requires TableOk(t) && WindowWorks(t) && Opened(a) && i < j <= n && j < |t.data|
    ensures var seen := Run(t, a, Through(d, n));
            && seen[i].recno in t.rows && seen[j].recno in t.rows
            && var one, two := t.rows[seen[i].recno], t.rows[seen[j].recno];
            |one| == |two| && if (d == Forward) == t.reverse then Less(two, one) else Less(one, two)
  {
    hide WindowWorks, Opened, Run, TableOk, IndexRows;
    NumbersCount(t);
    var f := Numbers(t);
    ShownAt(t, a, d, n, i);
    ShownAt(t, a, d, n, j);
    LookAt(t, f, d, i);
    LookAt(t, f, d, j);
    if d == Forward { RowsFollow(t, i, j); } else { RowsFollow(t, |f| - 1 - j, |f| - 1 - i); }
  }

  /** And every row is shown, when the run is as long as the table. */
  lemma AllRowsAreShown(t: Table, a: Area, d: Direction, n: nat, r: nat) returns (m: nat)
    requires TableOk(t) && WindowWorks(t) && Opened(a) && n + 1 >= |t.data| && r in t.rows
    ensures m < |t.data| && m <= n && Run(t, a, Through(d, n))[m].recno == r
  {
    hide TableOk, WindowWorks, Opened, Run;
    OrderHolds(t);
    NumbersCount(t);
    var f := Numbers(t);
    assert r in f by { assert Exists(t, r); }
    var k :| 0 <= k < |f| && f[k] == r;
    m := if d == Forward then k else |f| - 1 - k;
    ShownAt(t, a, d, n, m);
    LookAt(t, f, d, m);
  }

  lemma {:induction false} PlainRunLast(t: Table, c: P.Plain, moves: seq<Move>, recno: nat)
    ensures var seen := P.PlainRun(t, c, moves + [GoToRecord(recno)])[|moves|];
            seen == P.PlainLook(t, P.PlainDo(t, P.Fresh, GoToRecord(recno)))
    decreases |moves|
  {
    var all := moves + [GoToRecord(recno)];
    if moves != [] {
      PlainRunLast(t, P.PlainDo(t, c, moves[0]), moves[1..], recno);
      assert all[1..] == moves[1..] + [GoToRecord(recno)];
    }
  }

  /** After any run, GoTo shows the record it names when the table has it, and otherwise the phantom record. */
  lemma GoToShows(t: Table, a: Area, moves: seq<Move>, recno: nat)
    requires TableOk(t) && WindowWorks(t) && Opened(a) && SingleSteps(moves) && recno != 0
    ensures Run(t, a, moves + [GoToRecord(recno)])[|moves|]
         == if recno in t.rows then Seen(recno, false, false, true) else Seen(t.recCount + 1, true, true, true)
  {
    hide TableOk, WindowWorks, Opened, Run, P.PlainRun;
    RunsAgree(t, a, moves + [GoToRecord(recno)]);
    PlainRunLast(t, P.Fresh, moves, recno);
    OrderHolds(t);
    var f := Numbers(t);
    var i := PlainGoTo(t, f, P.Fresh, recno);
    if i < |f| { assert f[i] in f && Exists(t, recno); } else { assert !Exists(t, recno); }
  }
}
