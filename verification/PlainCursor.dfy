/** The cursor a program expects: a position in the ordered rows, with no window, hints or statements. */
module PlainCursor {
  import opened IndexOrder
  import opened Cursor

  /** Before the first move, on row `i` (BOF is on when a skip ran out before the first row), or on the
      phantom record after the last row. */
  datatype Plain = Fresh | OnRow(i: nat, bof: bool) | Phantom(bof: bool)

  function PlainEdge(count: nat, i: nat): Plain
  {
    if count == 0 then Phantom(true) else OnRow(i, false)
  }

  /** Skipping `n` rows from row `i` of `count`. */
  function PlainSkipFrom(count: nat, i: nat, n: int): Plain
  {
    if i + n >= count then Phantom(false)
    else if i + n < 0 then OnRow(0, true)
    else OnRow(i + n, false)
  }

  function PlainSkip(count: nat, c: Plain, n: int): Plain
  {
    match c
    case Fresh =>
      if count == 0 then Phantom(n <= 0)
      else PlainSkipFrom(count, 0, n)
    case OnRow(i, bof) => if n == 0 then c else PlainSkipFrom(count, i, n)
    case Phantom(bof) =>
      if n == 0 then c
      else if n > 0 then Phantom(false)
      else if count == 0 then Phantom(true)
      else PlainSkipFrom(count, count, n)
  }

  function PlainDo(t: Table, c: Plain, m: Move): Plain
  {
    var rows := IndexRows(t);
    match m
    case GoTop => PlainEdge(|rows|, 0)
    case GoBottom => if |rows| == 0 then Phantom(true) else OnRow(|rows| - 1, false)
    case GoToRecord(recno) =>
      if RowIndex(rows, recno) < |rows| then OnRow(RowIndex(rows, recno), false) else Phantom(true)
    case SkipBy(n) => PlainSkip(|rows|, c, n)
  }

  function PlainLook(t: Table, c: Plain): Seen
  {
    match c
    case OnRow(i, bof) => Seen(if i < |IndexRows(t)| then IndexRows(t)[i].recno else 0, bof, false, true)
    case Phantom(bof) => Seen(t.recCount + 1, bof, true, true)
    case Fresh => Seen(0, false, false, true)
  }

  function PlainRun(t: Table, c: Plain, moves: seq<Move>): (seen: seq<Seen>)
    ensures |seen| == |moves|
    decreases |moves|
  {
    if moves == [] then []
    else
      var d := PlainDo(t, c, moves[0]);
      [PlainLook(t, d)] + PlainRun(t, d, moves[1..])
  }
}
