/** The WHERE clauses of skip and seek statements over index columns that may be NULL, the parameters that are bound to
    them by loops of their own, and what becomes of prepared statements when the record has other NULLs.
 */
module Bindings {
  import I = IndexOrder

  datatype Kind = Numeric | Other

  datatype Op = Equal | AtLeast | AtMost

  /** A condition: on column `col`, with a parameter, or for NULL with or without other values; or the text of a filter. */
  datatype Part =
    | Compare(col: nat, op: Op)
    | OrNull(col: nat, op: Op)
    | IsNull(col: nat)
    | Filter(text: string)

  datatype Word = Where | And | Condition(part: Part)

  // ---------------------------------------------------------------- the text

  datatype Maybe = Nothing | Just(part: Part)

  /** A clause goes on with AND, or begins with WHERE; a part that is missing leaves it as it is. */
  function AddPart(words: seq<Word>, m: Maybe): seq<Word>
  {
    match m
    case Nothing => words
    case Just(part) => words + [if words == [] then Where else And, Condition(part)]
  }

  /** The condition of column `col` in the statement of `level`. `up` is the direction of the comparison, `free` says
      that a last column which is NULL, and not numeric, is left unrestricted. */
  function ColumnPart(col: nat, level: nat, isNull: bool, kind: Kind, up: bool, free: bool): Maybe
  {
    var last := col + 1 == level;
    var op := if !last then Equal else if up then AtLeast else AtMost;
    if !isNull then Just(Compare(col, op))
    else if kind == Numeric then Just(OrNull(col, op))
    else if last && free then Nothing
    else Just(IsNull(col))
  }

  function FilterPart(filter: string): Maybe
  {
    if filter == "" then Nothing else Just(Filter(filter))
  }

  function ColumnsText(n: nat, level: nat, nulls: seq<bool>, kinds: seq<Kind>, up: bool, free: bool): seq<Word>
    requires n <= |nulls| == |kinds|
  {
    if n == 0 then []
    else AddPart(ColumnsText(n - 1, level, nulls, kinds, up, free),
                 ColumnPart(n - 1, level, nulls[n - 1], kinds[n - 1], up, free))
  }

  function WithFilters(words: seq<Word>, filters: seq<string>, n: nat): seq<Word>
    requires n <= |filters|
  {
    if n == 0 then words else AddPart(WithFilters(words, filters, n - 1), FilterPart(filters[n - 1]))
  }

  /** The clause of a statement. */
  function Clause(level: nat, nulls: seq<bool>, kinds: seq<Kind>, filters: seq<string>, up: bool, free: bool): seq<Word>
    requires level <= |nulls| == |kinds|
  {
    WithFilters(ColumnsText(level, level, nulls, kinds, up, free), filters, |filters|)
  }

  /** No word at all, or one WHERE and conditions with AND between them. */
  predicate WellFormed(words: seq<Word>)
  {
    && |words| % 2 == 0
    && forall i :: 0 <= i < |words| ==>
         && (words[i] == Where <==> i == 0)
         && (words[i].Condition? <==> i % 2 == 1)
  }

  /** What a clause requires of a row, given what its conditions do. */
  ghost predicate Means(words: seq<Word>, holds: Part -> bool)
  {
    forall i :: 0 <= i < |words| && words[i].Condition? ==> holds(words[i].part)
  }

  predicate Holds(m: Maybe, holds: Part -> bool)
  {
    m.Just? ==> holds(m.part)
  }

  lemma AddPartMeans(words: seq<Word>, m: Maybe, holds: Part -> bool)
    requires WellFormed(words)
    ensures WellFormed(AddPart(words, m))
    ensures Means(AddPart(words, m), holds) <==> Means(words, holds) && Holds(m, holds)
  {
    var more := AddPart(words, m);
    assert forall i :: 0 <= i < |words| ==> more[i] == words[i];
    if m.Just? {
      assert more[|words|] == if words == [] then Where else And;
      assert more[|words| + 1] == Condition(m.part);
      if Means(more, holds) {
        assert forall i :: 0 <= i < |words| ==> words[i] == more[i];
      }
    }
  }

  ghost predicate ColumnsHold(n: nat, level: nat, nulls: seq<bool>, kinds: seq<Kind>, up: bool, free: bool, holds: Part -> bool)
    requires n <= |nulls| == |kinds|
  {
    forall c :: 0 <= c < n ==> Holds(ColumnPart(c, level, nulls[c], kinds[c], up, free), holds)
  }

  ghost predicate FiltersHold(filters: seq<string>, n: nat, holds: Part -> bool)
    requires n <= |filters|
  {
    forall f :: 0 <= f < n ==> Holds(FilterPart(filters[f]), holds)
  }

  lemma {:induction false} ColumnsMean(n: nat, level: nat, nulls: seq<bool>, kinds: seq<Kind>, up: bool, free: bool, holds: Part -> bool)
    requires n <= |nulls| == |kinds|
    ensures WellFormed(ColumnsText(n, level, nulls, kinds, up, free))
    ensures Means(ColumnsText(n, level, nulls, kinds, up, free), holds) <==> ColumnsHold(n, level, nulls, kinds, up, free, holds)
    decreases n
  {
    if n > 0 {
      ColumnsMean(n - 1, level, nulls, kinds, up, free, holds);
      AddPartMeans(ColumnsText(n - 1, level, nulls, kinds, up, free),
                   ColumnPart(n - 1, level, nulls[n - 1], kinds[n - 1], up, free), holds);
    }
  }

  lemma {:induction false} FiltersMean(words: seq<Word>, filters: seq<string>, n: nat, holds: Part -> bool)
    requires WellFormed(words) && n <= |filters|
    ensures WellFormed(WithFilters(words, filters, n))
    ensures Means(WithFilters(words, filters, n), holds) <==> Means(words, holds) && FiltersHold(filters, n, holds)
    decreases n
  {
    if n > 0 {
      FiltersMean(words, filters, n - 1, holds);
      AddPartMeans(WithFilters(words, filters, n - 1), FilterPart(filters[n - 1]), holds);
    }
  }

  /** For every pattern of NULLs, at every level, in both directions and with any filters: the clause is empty or one WHERE
      with conditions joined by AND, and it requires what its columns and its filters that are not empty require. */
  lemma ClauseMeans(level: nat, nulls: seq<bool>, kinds: seq<Kind>, filters: seq<string>, up: bool, free: bool, holds: Part -> bool)
    requires level <= |nulls| == |kinds|
    ensures WellFormed(Clause(level, nulls, kinds, filters, up, free))
    ensures Means(Clause(level, nulls, kinds, filters, up, free), holds)
       <==> ColumnsHold(level, level, nulls, kinds, up, free, holds) && FiltersHold(filters, |filters|, holds)
  {
    ColumnsMean(level, level, nulls, kinds, up, free, holds);
    FiltersMean(ColumnsText(level, level, nulls, kinds, up, free), filters, |filters|, holds);
  }

  // ---------------------------------------------------------------- placeholders and bindings

  function Placeholder(word: Word): seq<nat>
  {
    match word
    case Condition(Compare(col, op)) => [col]
    case _ => []
  }

  function PlaceholdersTo(words: seq<Word>, k: nat): seq<nat>
    requires k <= |words|
  {
    if k == 0 then [] else PlaceholdersTo(words, k - 1) + Placeholder(words[k - 1])
  }

  /** The columns of the `?` marks, in the order of the text. */
  function Placeholders(words: seq<Word>): seq<nat>
  {
    PlaceholdersTo(words, |words|)
  }

  /** The columns that the loops over the bindings bind: those that are not marked NULL. */
  function BoundColumns(level: nat, marks: seq<bool>): seq<nat>
    requires level <= |marks|
  {
    if level == 0 then []
    else BoundColumns(level - 1, marks) + if marks[level - 1] then [] else [level - 1]
  }

  lemma {:induction false} PlaceholdersOfSame(words: seq<Word>, more: seq<Word>, k: nat)
    requires k <= |words| && k <= |more| && forall i :: 0 <= i < k ==> words[i] == more[i]
    ensures PlaceholdersTo(words, k) == PlaceholdersTo(more, k)
    decreases k
  {
    if k > 0 { PlaceholdersOfSame(words, more, k - 1); }
  }

  function MaybePlaceholder(m: Maybe): seq<nat>
  {
    match m
    case Nothing => []
    case Just(part) => Placeholder(Condition(part))
  }

  /** A condition added to a clause adds its placeholder, if it has one. */
  lemma AddPartPlaceholders(words: seq<Word>, m: Maybe)
    ensures Placeholders(AddPart(words, m)) == Placeholders(words) + MaybePlaceholder(m)
  {
    var more := AddPart(words, m);
    PlaceholdersOfSame(words, more, |words|);
    if m.Just? {
      assert PlaceholdersTo(more, |words| + 1) == PlaceholdersTo(more, |words|) + [];
    }
  }

  lemma {:induction false} ColumnsPlaceholders(n: nat, level: nat, nulls: seq<bool>, kinds: seq<Kind>, up: bool, free: bool)
    requires n <= |nulls| == |kinds|
    ensures Placeholders(ColumnsText(n, level, nulls, kinds, up, free)) == BoundColumns(n, nulls)
    decreases n
  {
    if n > 0 {
      ColumnsPlaceholders(n - 1, level, nulls, kinds, up, free);
      AddPartPlaceholders(ColumnsText(n - 1, level, nulls, kinds, up, free),
                          ColumnPart(n - 1, level, nulls[n - 1], kinds[n - 1], up, free));
    }
  }

  lemma {:induction false} FiltersPlaceholders(words: seq<Word>, filters: seq<string>, n: nat)
    requires n <= |filters|
    ensures Placeholders(WithFilters(words, filters, n)) == Placeholders(words)
    decreases n
  {
    if n > 0 {
      FiltersPlaceholders(words, filters, n - 1);
      AddPartPlaceholders(WithFilters(words, filters, n - 1), FilterPart(filters[n - 1]));
    }
  }

  /** For every pattern of NULLs, at every level, in both directions and with any filters, the placeholders of the text
      are the parameters of the binding loop: as many, in the same order, for the same columns. */
  lemma PlaceholdersMatch(level: nat, nulls: seq<bool>, kinds: seq<Kind>, filters: seq<string>, up: bool, free: bool)
    requires level <= |nulls| == |kinds|
    ensures Placeholders(Clause(level, nulls, kinds, filters, up, free)) == BoundColumns(level, nulls)
  {
    FiltersPlaceholders(ColumnsText(level, level, nulls, kinds, up, free), filters, |filters|);
    ColumnsPlaceholders(level, level, nulls, kinds, up, free);
  }

  // ---------------------------------------------------------------- the statements of an index

  datatype Stmt = NoStmt | Prepared(text: seq<Word>, bound: seq<nat>)

  /** The index as the statements see it: the kinds of its columns, the filters and scopes, and the direction. */
  datatype Index = Index(kinds: seq<Kind>, filters: seq<string>, reverse: bool)

  function Text(x: Index, level: nat, nulls: seq<bool>, forward: bool): seq<Word>
    requires level <= |nulls| == |x.kinds|
  {
    Clause(level, nulls, x.kinds, x.filters, forward != x.reverse, forward != x.reverse)
  }

  /** The clause of a seek: a last column that is sought NULL is free in direction forward, whatever the direction of the
      index. */
  function SeekText(x: Index, level: nat, nulls: seq<bool>, forward: bool): seq<Word>
    requires level <= |nulls| == |x.kinds|
  {
    Clause(level, nulls, x.kinds, x.filters, forward != x.reverse, forward)
  }

  /** The statement of `level` for a record whose NULLs are `nulls`, with its parameters bound. */
  function StmtFor(x: Index, level: nat, nulls: seq<bool>, forward: bool): Stmt
    requires level <= |nulls| == |x.kinds|
  {
    Prepared(Text(x, level, nulls, forward), BoundColumns(level, nulls))
  }

  /** From level `from` + 1 on, the statements are those for `nulls`. */
  ghost predicate For(x: Index, stmts: seq<Stmt>, nulls: seq<bool>, forward: bool, from: nat)
    requires |stmts| == |nulls| == |x.kinds|
  {
    forall l :: from <= l < |stmts| ==> stmts[l] == StmtFor(x, l + 1, nulls, forward)
  }

  /** As `For`, but without parameters yet. */
  ghost predicate Written(x: Index, stmts: seq<Stmt>, nulls: seq<bool>, forward: bool, from: nat)
    requires |stmts| == |nulls| == |x.kinds|
  {
    forall l :: from <= l < |stmts| ==> stmts[l] == Prepared(Text(x, l + 1, nulls, forward), [])
  }

  /** The first `n` statements have their parameters, the others do not yet. */
  ghost predicate BoundTo(x: Index, stmts: seq<Stmt>, nulls: seq<bool>, forward: bool, n: nat)
    requires |stmts| == |nulls| == |x.kinds|
  {
    forall l :: 0 <= l < |stmts| ==>
      stmts[l] == if l < n then StmtFor(x, l + 1, nulls, forward) else Prepared(Text(x, l + 1, nulls, forward), [])
  }

  lemma BoundNext(x: Index, stmts: seq<Stmt>, nulls: seq<bool>, forward: bool, n: nat)
    requires |stmts| == |nulls| == |x.kinds| && n < |stmts| && BoundTo(x, stmts, nulls, forward, n)
    ensures stmts[n].Prepared?
    ensures BoundTo(x, stmts[n := Prepared(stmts[n].text, BoundColumns(n + 1, nulls))], nulls, forward, n + 1)
  {
  }

  /** Columns that are NULL in the record and not marked so. */
  function NewNulls(marks: seq<bool>, nulls: seq<bool>, n: nat): nat
    requires n <= |marks| == |nulls|
  {
    if n == 0 then 0 else NewNulls(marks, nulls, n - 1) + if nulls[n - 1] && !marks[n - 1] then 1 else 0
  }

  class IndexStatements {
    const kinds: seq<Kind>
    const reverse: bool
    var filters: seq<string>
    const isArgumentNull: array<bool>
    const skipStmt: array<Stmt>
    var sWhere: seq<Word>
    var bConditionChanged1: bool
    /** How often the statements have been prepared. */
    ghost var preparations: nat

    predicate Valid()
    {
      |kinds| == isArgumentNull.Length == skipStmt.Length > 0
    }

    /** The index as it is now. */
    function X(): Index
      reads `filters
    {
      Index(kinds, filters, reverse)
    }

    constructor (index: Index)
      requires |index.kinds| > 0
      ensures Valid() && fresh(isArgumentNull) && fresh(skipStmt) && X() == index
      ensures !bConditionChanged1 && skipStmt[0] == NoStmt
    {
      kinds, filters, reverse := index.kinds, index.filters, index.reverse;
      isArgumentNull := new bool[|index.kinds|](_ => false);
      skipStmt := new Stmt[|index.kinds|](_ => NoStmt);
      sWhere, bConditionChanged1, preparations := [], false, 0;
    }

    /** Each condition begins the clause or goes on with AND. */
    method Add(bWhere: bool, part: Part)
      requires bWhere == (sWhere != [])
      modifies `sWhere
      ensures sWhere == AddPart(old(sWhere), Just(part))
    {
      if bWhere {
        sWhere := sWhere + [And, Condition(part)];
      } else {
        sWhere := [Where, Condition(part)];
      }
    }

    method SolveFilters(bWhere: bool)
      requires bWhere == (sWhere != [])
      modifies `sWhere
      ensures sWhere == WithFilters(old(sWhere), filters, |filters|)
    {
      var where, i := bWhere, 0;
      while i < |filters|
        invariant i <= |filters| && where == (sWhere != [])
        invariant sWhere == WithFilters(old(sWhere), filters, i)
      {
        if filters[i] != "" {
          Add(where, Filter(filters[i]));
          where := true;
        }
        i := i + 1;
      }
    }

    /** The conditions of the index columns, then the filters; the mark of the level's own column is refreshed. */
    method GetWhereExpression(nulls: seq<bool>, indexLevel: nat, forward: bool)
      requires Valid() && 1 <= indexLevel <= |kinds| == |nulls|
      modifies `sWhere, `bConditionChanged1, isArgumentNull
      ensures sWhere == Text(X(), indexLevel, nulls, forward) && !bConditionChanged1
      ensures isArgumentNull[..] == old(isArgumentNull[..])[indexLevel - 1 := nulls[indexLevel - 1]]
    {
      var up := forward != reverse;
      sWhere, bConditionChanged1 := [], false;
      var bWhere, iCol := false, 0;
      while iCol < indexLevel
        invariant iCol <= indexLevel && !bConditionChanged1 && bWhere == (sWhere != [])
        invariant sWhere == ColumnsText(iCol, indexLevel, nulls, kinds, up, up)
        invariant isArgumentNull[..] == if iCol == indexLevel then old(isArgumentNull[..])[indexLevel - 1 := nulls[indexLevel - 1]]
                                        else old(isArgumentNull[..])
      {
        var last := iCol + 1 == indexLevel;
        var op := if !last then Equal else if up then AtLeast else AtMost;
        if last {
          isArgumentNull[iCol] := nulls[iCol];
        }
        if !nulls[iCol] {
          Add(bWhere, Compare(iCol, op));
          bWhere := true;
        } else if kinds[iCol] == Numeric {
          Add(bWhere, OrNull(iCol, op));
          bWhere := true;
        } else if last && up {
          // "column >= NULL" restricts nothing
        } else {
          Add(bWhere, IsNull(iCol));
          bWhere := true;
        }
        iCol := iCol + 1;
      }
      SolveFilters(bWhere);
    }

    /** Prepares a statement for each level, the deepest first. */
    method PrepareLevels(nulls: seq<bool>, forward: bool)
      requires Valid() && |nulls| == |kinds|
      modifies `sWhere, `bConditionChanged1, isArgumentNull, skipStmt
      ensures !bConditionChanged1 && isArgumentNull[..] == nulls
      ensures Written(X(), skipStmt[..], nulls, forward, 0)
    {
      var indexLevel := |kinds|;
      while indexLevel > 0
        invariant 0 <= indexLevel <= |kinds| && (indexLevel < |kinds| ==> !bConditionChanged1)
        invariant isArgumentNull[indexLevel..] == nulls[indexLevel..]
        invariant Written(X(), skipStmt[..], nulls, forward, indexLevel)
      {
        GetWhereExpression(nulls, indexLevel, forward);
        skipStmt[indexLevel - 1] := Prepared(sWhere, []);
        indexLevel := indexLevel - 1;
      }
    }

    /** Prepares the statements again when a condition has changed or there is none; the result says whether it did. */
    method CreateSkipStmt(nulls: seq<bool>, forward: bool) returns (created: bool)
      requires Valid() && |nulls| == |kinds|
      modifies `sWhere, `bConditionChanged1, `preparations, isArgumentNull, skipStmt
      ensures created == (old(bConditionChanged1) || old(skipStmt[0]) == NoStmt)
      ensures preparations == old(preparations) + if created then 1 else 0
      ensures created ==> !bConditionChanged1 && isArgumentNull[..] == nulls && Written(X(), skipStmt[..], nulls, forward, 0)
      ensures !created ==> skipStmt[..] == old(skipStmt[..]) && isArgumentNull[..] == old(isArgumentNull[..]) && !bConditionChanged1
    {
      created := bConditionChanged1 || skipStmt[0] == NoStmt;
      if created {
        forall i | 0 <= i < |kinds| {
          skipStmt[i] := NoStmt;
        }
        PrepareLevels(nulls, forward);
        preparations := preparations + 1;
      }
    }

    /** The loop over the columns of one statement; marked columns take no parameter. */
    method BindStmt(level: nat) returns (bound: seq<nat>)
      requires Valid() && level <= |kinds|
      ensures bound == BoundColumns(level, isArgumentNull[..])
    {
      bound := [];
      var iLoop := 0;
      while iLoop < level
        invariant iLoop <= level && bound == BoundColumns(iLoop, isArgumentNull[..])
      {
        if !isArgumentNull[iLoop] {
          bound := bound + [iLoop];
        }
        iLoop := iLoop + 1;
      }
    }

    method BindAllIndexStmts(ghost nulls: seq<bool>, ghost forward: bool)
      requires Valid() && |nulls| == |kinds| && isArgumentNull[..] == nulls
      requires Written(X(), skipStmt[..], nulls, forward, 0)
      modifies skipStmt
      ensures For(X(), skipStmt[..], nulls, forward, 0)
    {
      var iCol := 0;
      while iCol < |kinds|
        invariant iCol <= |kinds| && isArgumentNull[..] == nulls
        invariant BoundTo(X(), skipStmt[..], nulls, forward, iCol)
      {
        var bound := BindStmt(iCol + 1);
        BoundNext(X(), skipStmt[..], nulls, forward, iCol);
        skipStmt[iCol] := Prepared(skipStmt[iCol].text, bound);
        iCol := iCol + 1;
      }
    }

    /** Binds the values of the current record, whose NULLs are `nulls`. When a column is NULL that is not marked so, the
        statements are prepared again, and the record is fed again to those: once, since then every mark is right. */
    method FeedCurrentRecordToBindings(nulls: seq<bool>, forward: bool)
      requires Valid() && |nulls| == |kinds| && !bConditionChanged1
      modifies `sWhere, `bConditionChanged1, `preparations, isArgumentNull, skipStmt
      ensures !bConditionChanged1
      ensures preparations == old(preparations) + if old(NewNulls(isArgumentNull[..], nulls, |nulls|)) > 0 then 1 else 0
      ensures old(NewNulls(isArgumentNull[..], nulls, |nulls|)) == 0 ==>
                skipStmt[..] == old(skipStmt[..]) && isArgumentNull[..] == old(isArgumentNull[..])
      ensures old(NewNulls(isArgumentNull[..], nulls, |nulls|)) > 0 ==>
                isArgumentNull[..] == nulls && For(X(), skipStmt[..], nulls, forward, 0)
      decreases NewNulls(isArgumentNull[..], nulls, |nulls|)
    {
      ghost var marks := isArgumentNull[..];
      var iCol := 0;
      while iCol < |kinds|
        invariant iCol <= |kinds| && !bConditionChanged1
        invariant preparations == old(preparations) + if NewNulls(marks, nulls, iCol) > 0 then 1 else 0
        invariant NewNulls(marks, nulls, iCol) == 0 ==> isArgumentNull[..] == marks && skipStmt[..] == old(skipStmt[..])
        invariant NewNulls(marks, nulls, iCol) > 0 ==> isArgumentNull[..] == nulls && For(X(), skipStmt[..], nulls, forward, 0)
      {
        if nulls[iCol] && !isArgumentNull[iCol] {
          NewNullsGrow(marks, nulls, iCol + 1);
          bConditionChanged1 := true;
          var created := CreateSkipStmt(nulls, forward);
          BindAllIndexStmts(nulls, forward);
          NoNewNulls(nulls, |nulls|);
          FeedCurrentRecordToBindings(nulls, forward);
        }
        iCol := iCol + 1;
      }
    }

    /** The clause of a seek goes by the marks that the key left; a last column that is sought NULL is unrestricted in
        direction forward, whatever the direction of the index. */
    method GetSeekWhereExpression(queryLevel: nat, forward: bool)
      requires Valid() && 1 <= queryLevel <= |kinds|
      modifies `sWhere
      ensures sWhere == SeekText(X(), queryLevel, isArgumentNull[..], forward)
    {
      var up := forward != reverse;
      sWhere := [];
      var bWhere, iCol := false, 0;
      while iCol < queryLevel
        invariant iCol <= queryLevel && (iCol < queryLevel ==> bWhere == (sWhere != []))
        invariant sWhere == ColumnsText(iCol, queryLevel, isArgumentNull[..], kinds, up, forward)
      {
        var last := iCol + 1 == queryLevel;
        var op := if !last then Equal else if up then AtLeast else AtMost;
        if isArgumentNull[iCol] {
          if kinds[iCol] == Numeric {
            Add(bWhere, OrNull(iCol, op));
          } else if last && forward {
            // "column >= NULL" restricts nothing
          } else {
            Add(bWhere, IsNull(iCol));
          }
        } else {
          Add(bWhere, Compare(iCol, op));
        }
        bWhere := true;
        iCol := iCol + 1;
      }
      bWhere := sWhere != [];
      SolveFilters(bWhere);
    }

    /** A seek statement, prepared and bound. */
    method PrepareSeek(queryLevel: nat, forward: bool) returns (stmt: Stmt)
      requires Valid() && 1 <= queryLevel <= |kinds|
      modifies `sWhere
      ensures stmt.Prepared? && Placeholders(stmt.text) == stmt.bound == BoundColumns(queryLevel, isArgumentNull[..])
      ensures stmt.text == SeekText(X(), queryLevel, isArgumentNull[..], forward)
    {
      GetSeekWhereExpression(queryLevel, forward);
      PlaceholdersMatch(queryLevel, isArgumentNull[..], kinds, filters, forward != reverse, forward);
      var bound := BindStmt(queryLevel);
      stmt := Prepared(sWhere, bound);
    }

    /** The preparation of a raw skip: the statements are created, or fed with the current record. `prepared` are the
        filters that they were last prepared with. */
    method PrepareSkip(nulls: seq<bool>, forward: bool, ghost prepared: seq<string>) returns (created: bool)
      requires Valid() && |nulls| == |kinds|
      requires skipStmt[0] != NoStmt && !bConditionChanged1 ==>
                 For(X().(filters := prepared), skipStmt[..], isArgumentNull[..], forward, 0)
      modifies `sWhere, `bConditionChanged1, `preparations, isArgumentNull, skipStmt
      ensures created == old(bConditionChanged1 || skipStmt[0] == NoStmt) && !bConditionChanged1
      ensures isArgumentNull[..] == if created || old(NewNulls(isArgumentNull[..], nulls, |nulls|)) > 0 then nulls
                                    else old(isArgumentNull[..])
      ensures For(X(), skipStmt[..], nulls, forward, 0)
         <==> created || old(StaysRight(isArgumentNull[..], nulls, Parts(prepared) == Parts(filters)))
    {
      ghost var marks := isArgumentNull[..];
      ghost var y := X().(filters := prepared);
      NewNullsExactly(marks, nulls, |nulls|);
      created := CreateSkipStmt(nulls, forward);
      if !created {
        FeedCurrentRecordToBindings(nulls, forward);
        if NewNulls(marks, nulls, |nulls|) == 0 {
          RightExactly(X(), y, skipStmt[..], marks, nulls, forward);
        }
      } else {
        BindAllIndexStmts(nulls, forward);
      }
    }

    /** sqlExSetFilter and its like: the statements are to be prepared again. */
    method SetFilter(newFilters: seq<string>)
      modifies `filters, `bConditionChanged1
      ensures filters == newFilters && bConditionChanged1
    {
      filters, bConditionChanged1 := newFilters, true;
    }

    /** The clause of GoTop and GoBottom: the filters alone. The mark for a changed condition is cleared here too. */
    method GetEdgeWhereExpression()
      modifies `sWhere, `bConditionChanged1
      ensures sWhere == WithFilters([], filters, |filters|) && !bConditionChanged1
    {
      sWhere, bConditionChanged1 := [], false;
      SolveFilters(false);
    }

    /** A change of the filters, with or without a GoTop or GoBottom after it that asks the database, and then a skip: the
        statements that it reads with are right exactly when there was no such move, or the filters are the same text, or a
        column is newly NULL. */
    method FilterAndSkip(newFilters: seq<string>, toEdge: bool, nulls: seq<bool>, forward: bool)
      requires Valid() && |nulls| == |kinds| && skipStmt[0] != NoStmt && !bConditionChanged1
      requires For(X(), skipStmt[..], isArgumentNull[..], forward, 0)
      modifies this, isArgumentNull, skipStmt
      ensures filters == newFilters
      ensures For(X(), skipStmt[..], nulls, forward, 0)
         <==> !toEdge || old(StaysRight(isArgumentNull[..], nulls, Parts(filters) == Parts(newFilters)))
    {
      ghost var prepared := filters;
      assert X().(filters := prepared) == X();
      SetFilter(newFilters);
      if toEdge {
        GetEdgeWhereExpression();
      }
      var created := PrepareSkip(nulls, forward, prepared);
    }
  }

  /** A filter that is set after a skip, a GoTop, and a skip: the second skip reads without the filter. */
  method FilterIsMissed(kind: Kind, filter: string, forward: bool) returns (s: IndexStatements)
    requires filter != ""
    ensures fresh(s) && s.Valid() && s.kinds == [kind] && s.filters == [filter]
    ensures !For(s.X(), s.skipStmt[..], [false], forward, 0)
  {
    s := new IndexStatements(Index([kind], [], false));
    var created := s.PrepareSkip([false], forward, []);
    s.FilterAndSkip([filter], true, [false], forward);
    assert Parts([filter]) == [filter];
  }

  /** What must hold of the marks of the prepared statements and of the NULLs of the record: some column is newly NULL, so
      that all statements are prepared again, or no column has ceased to be NULL and the filters are the same. */
  ghost predicate StaysRight(marks: seq<bool>, nulls: seq<bool>, sameFilters: bool)
    requires |marks| == |nulls|
  {
    || (exists c :: 0 <= c < |nulls| && nulls[c] && !marks[c])
    || (sameFilters && forall c :: 0 <= c < |nulls| && marks[c] ==> nulls[c])
  }

  /** The filters that are not empty. */
  function Parts(filters: seq<string>): seq<string>
  {
    if filters == [] then []
    else Parts(filters[..|filters| - 1]) + if filters[|filters| - 1] == "" then [] else [filters[|filters| - 1]]
  }

  function AddFilters(words: seq<Word>, parts: seq<string>): (more: seq<Word>)
    ensures |more| == |words| + 2 * |parts|
  {
    if parts == [] then words
    else AddPart(AddFilters(words, parts[..|parts| - 1]), Just(Filter(parts[|parts| - 1])))
  }

  lemma {:induction false} FiltersAreParts(words: seq<Word>, filters: seq<string>, n: nat)
    requires n <= |filters|
    ensures WithFilters(words, filters, n) == AddFilters(words, Parts(filters[..n]))
    decreases n
  {
    if n > 0 {
      FiltersAreParts(words, filters, n - 1);
      var front, before := filters[..n], Parts(filters[..n - 1]);
      assert front[..|front| - 1] == filters[..n - 1] && front[|front| - 1] == filters[n - 1];
      if filters[n - 1] == "" {
        assert Parts(front) == before + [] == before;
      } else {
        assert Parts(front) == before + [filters[n - 1]];
        assert Parts(front)[..|before|] == before;
      }
    }
  }

  lemma {:induction false} PartsAreRead(words: seq<Word>, p: seq<string>, q: seq<string>)
    requires AddFilters(words, p) == AddFilters(words, q)
    ensures p == q
    decreases |p|
  {
    assert |p| == |q|;
    if p != [] {
      var n := |p| - 1;
      var v, w := AddFilters(words, p[..n]), AddFilters(words, q[..n]);
      assert AddFilters(words, p)[..|v|] == v && AddFilters(words, q)[..|w|] == w;
      assert AddFilters(words, p)[|v| + 1] == Condition(Filter(p[n]));
      assert AddFilters(words, q)[|w| + 1] == Condition(Filter(q[n]));
      PartsAreRead(words, p[..n], q[..n]);
      assert p == p[..n] + [p[n]] && q == q[..n] + [q[n]];
    }
  }

  /** Clauses over the same columns are the same exactly when their filters are, those that are empty apart. */
  lemma SameFilters(words: seq<Word>, f: seq<string>, g: seq<string>)
    ensures WithFilters(words, f, |f|) == WithFilters(words, g, |g|) <==> Parts(f) == Parts(g)
  {
    FiltersAreParts(words, f, |f|);
    FiltersAreParts(words, g, |g|);
    assert f[..|f|] == f && g[..|g|] == g;
    if WithFilters(words, f, |f|) == WithFilters(words, g, |g|) {
      PartsAreRead(words, Parts(f), Parts(g));
    }
  }

  /** Statements that were prepared for other filters and other NULLs, none of them newly NULL. */
  lemma RightExactly(x: Index, y: Index, stmts: seq<Stmt>, marks: seq<bool>, nulls: seq<bool>, forward: bool)
    requires |stmts| == |marks| == |nulls| == |x.kinds| > 0 && y == x.(filters := y.filters)
    requires For(y, stmts, marks, forward, 0) && forall c :: 0 <= c < |nulls| && nulls[c] ==> marks[c]
    ensures For(x, stmts, nulls, forward, 0)
       <==> Parts(y.filters) == Parts(x.filters) && forall c :: 0 <= c < |nulls| && marks[c] ==> nulls[c]
  {
    if For(x, stmts, nulls, forward, 0) {
      ForOne(x, y, stmts, marks, nulls, forward);
      assert stmts[0] == StmtFor(x, 1, nulls, forward) == StmtFor(y, 1, marks, forward);
      SameText(x, y, 1, nulls, forward);
    } else if Parts(y.filters) == Parts(x.filters) && forall c :: 0 <= c < |nulls| && marks[c] ==> nulls[c] {
      assert marks == nulls;
      forall l | 0 <= l < |stmts| ensures stmts[l] == StmtFor(x, l + 1, nulls, forward) {
        SameText(x, y, l + 1, nulls, forward);
      }
    }
  }

  lemma SameText(x: Index, y: Index, level: nat, nulls: seq<bool>, forward: bool)
    requires level <= |nulls| == |x.kinds| && y == x.(filters := y.filters)
    ensures Text(x, level, nulls, forward) == Text(y, level, nulls, forward) <==> Parts(x.filters) == Parts(y.filters)
  {
    var up := forward != x.reverse;
    SameFilters(ColumnsText(level, level, nulls, x.kinds, up, up), x.filters, y.filters);
  }

  lemma {:induction false} BoundMember(n: nat, marks: seq<bool>, c: nat)
    requires n <= |marks|
    ensures c in BoundColumns(n, marks) <==> c < n && !marks[c]
    decreases n
  {
    if n > 0 { BoundMember(n - 1, marks, c); }
  }

  /** Statements are right for one pattern of NULLs only. */
  lemma ForOne(x: Index, y: Index, stmts: seq<Stmt>, marks: seq<bool>, nulls: seq<bool>, forward: bool)
    requires |stmts| == |marks| == |nulls| == |x.kinds| == |y.kinds|
    requires For(y, stmts, marks, forward, 0) && For(x, stmts, nulls, forward, 0)
    ensures marks == nulls
  {
    forall c | 0 <= c < |marks| ensures marks[c] == nulls[c] {
      assert stmts[c] == StmtFor(y, c + 1, marks, forward) == StmtFor(x, c + 1, nulls, forward);
      BoundMember(c + 1, marks, c);
      BoundMember(c + 1, nulls, c);
    }
  }

  // ---------------------------------------------------------------- which rows a clause reads

  /** A column of a row, or of the record that the statement is for. */
  datatype Cell = Null | Val(v: int)

  predicate Compared(op: Op, a: int, b: int)
  {
    match op
    case Equal => a == b
    case AtLeast => a >= b
    case AtMost => a <= b
  }

  /** Whether a row meets a condition whose parameters are `bound`. A comparison with NULL is not true; a numeric column that
      is NULL or compared is compared with zero, and only asked for NULL where it would have to be equal. */
  predicate MeetsPart(row: seq<Cell>, bound: seq<int>, filter: string -> bool, part: Part)
  {
    match part
    case Compare(col, op) =>
      col < |row| && col < |bound| && row[col].Val? && Compared(op, row[col].v, bound[col])
    case OrNull(col, op) => col < |row| && (row[col].Null? || (op != Equal && Compared(op, row[col].v, 0)))
    case IsNull(col) => col < |row| && row[col].Null?
    case Filter(text) => filter(text)
  }

  function Meets(row: seq<Cell>, bound: seq<int>, filter: string -> bool): Part -> bool
  {
    (part: Part) => MeetsPart(row, bound, filter, part)
  }

  function NullsOf(record: seq<Cell>): (nulls: seq<bool>)
    ensures |nulls| == |record| && forall c :: 0 <= c < |record| ==> nulls[c] == record[c].Null?
  {
    seq(|record|, c requires 0 <= c < |record| => record[c].Null?)
  }

  /** The parameters; those of NULL columns are not used. */
  function BoundOf(record: seq<Cell>): (bound: seq<int>)
    ensures |bound| == |record| && forall c :: 0 <= c < |record| && record[c].Val? ==> bound[c] == record[c].v
  {
    seq(|record|, c requires 0 <= c < |record| => if record[c].Val? then record[c].v else 0)
  }

  /** Whether a row is read, as far as one column goes: a value is compared, the last column upwards or downwards and the
      others for equality; NULL asks for NULL, or, in the last column, for what is not before zero if the column is
      numeric, and for everything if it is not and left free. */
  predicate Reads(kind: Kind, last: bool, up: bool, free: bool, mine: Cell, other: Cell)
  {
    match mine
    case Val(v) => other.Val? && if !last then other.v == v else if up then other.v >= v else other.v <= v
    case Null =>
      other.Null? || (last && if kind == Numeric then (if up then other.v >= 0 else other.v <= 0) else free)
  }

  ghost predicate AllRead(level: nat, record: seq<Cell>, kinds: seq<Kind>, up: bool, free: bool, row: seq<Cell>)
    requires level <= |record| == |kinds| == |row|
  {
    forall c :: 0 <= c < level ==> Reads(kinds[c], c + 1 == level, up, free, record[c], row[c])
  }

  ghost predicate Passes(filters: seq<string>, filter: string -> bool)
  {
    forall f :: 0 <= f < |filters| && filters[f] != "" ==> filter(filters[f])
  }

  lemma ColumnReads(c: nat, level: nat, record: seq<Cell>, kind: Kind, up: bool, free: bool, row: seq<Cell>, filter: string -> bool)
    requires c < level <= |record| == |row|
    ensures Holds(ColumnPart(c, level, record[c].Null?, kind, up, free), Meets(row, BoundOf(record), filter))
       <==> Reads(kind, c + 1 == level, up, free, record[c], row[c])
  {
  }

  /** The rows that a clause reads, for every record with its NULLs and every row with its own. */
  lemma ClauseReads(level: nat, record: seq<Cell>, kinds: seq<Kind>, filters: seq<string>, up: bool, free: bool, row: seq<Cell>,
                    filter: string -> bool)
    requires level <= |record| == |kinds| == |row|
    ensures Means(Clause(level, NullsOf(record), kinds, filters, up, free), Meets(row, BoundOf(record), filter))
       <==> AllRead(level, record, kinds, up, free, row) && Passes(filters, filter)
  {
    hide Clause, Means, Meets, ColumnPart, Reads;
    var nulls, holds := NullsOf(record), Meets(row, BoundOf(record), filter);
    ClauseMeans(level, nulls, kinds, filters, up, free, holds);
    forall c | 0 <= c < level
      ensures Holds(ColumnPart(c, level, nulls[c], kinds[c], up, free), holds)
         <==> Reads(kinds[c], c + 1 == level, up, free, record[c], row[c])
    {
      ColumnReads(c, level, record, kinds[c], up, free, row, filter);
    }
    FiltersPass(filters, row, BoundOf(record), filter);
  }

  lemma FiltersPass(filters: seq<string>, row: seq<Cell>, bound: seq<int>, filter: string -> bool)
    ensures FiltersHold(filters, |filters|, Meets(row, bound, filter)) <==> Passes(filters, filter)
  {
    var holds := Meets(row, bound, filter);
    forall f | 0 <= f < |filters|
      ensures Holds(FilterPart(filters[f]), holds) <==> filters[f] == "" || filter(filters[f])
    {
    }
  }

  function Cells(key: I.Key): (row: seq<Cell>)
    ensures |row| == |key| && forall c :: 0 <= c < |key| ==> row[c] == Val(key[c])
  {
    seq(|key|, c requires 0 <= c < |key| => Val(key[c]))
  }

  lemma NoNullsRead(level: nat, key: I.Key, kinds: seq<Kind>, up: bool, free: bool, row: I.Row)
    requires 1 <= level <= |key| == |kinds| == |row.key|
    ensures AllRead(level, Cells(key), kinds, up, free, Cells(row.key)) <==> I.Matches(I.AtLevel(level, up, key), row)
  {
    var a, b := Cells(key), Cells(row.key);
    if AllRead(level, a, kinds, up, free, b) {
      forall c | 0 <= c < level - 1 ensures row.key[c] == key[c] {
        assert Reads(kinds[c], c + 1 == level, up, free, a[c], b[c]);
      }
      assert Reads(kinds[level - 1], true, up, free, a[level - 1], b[level - 1]);
    }
  }

  /** Without NULLs the skip statement of a level reads the rows of that level, in the direction of the list on an index that
      is not reversed, and in the other one on a reversed index. */
  lemma SkipReadsLevel(x: Index, level: nat, key: I.Key, forward: bool, row: I.Row, filter: string -> bool)
    requires 1 <= level <= |key| == |x.kinds| == |row.key|
    ensures Means(Text(x, level, NullsOf(Cells(key)), forward), Meets(Cells(row.key), BoundOf(Cells(key)), filter))
       <==> I.Matches(I.AtLevel(level, if x.reverse then !forward else forward, key), row) && Passes(x.filters, filter)
  {
    var up := forward != x.reverse;
    ClauseReads(level, Cells(key), x.kinds, x.filters, up, up, Cells(row.key), filter);
    NoNullsRead(level, key, x.kinds, up, up, row);
  }

  /** The same for the clause of a seek. */
  lemma SeekReadsLevel(x: Index, level: nat, key: I.Key, forward: bool, row: I.Row, filter: string -> bool)
    requires 1 <= level <= |key| == |x.kinds| == |row.key|
    ensures Means(SeekText(x, level, NullsOf(Cells(key)), forward), Meets(Cells(row.key), BoundOf(Cells(key)), filter))
       <==> I.Matches(I.AtLevel(level, if x.reverse then !forward else forward, key), row) && Passes(x.filters, filter)
  {
    var up := forward != x.reverse;
    ClauseReads(level, Cells(key), x.kinds, x.filters, up, forward, Cells(row.key), filter);
    NoNullsRead(level, key, x.kinds, up, forward, row);
  }

  // ---------------------------------------------------------------- NULLs in the order

  /** NULL comes before all values, or, in a numeric column, stands for zero. */
  predicate NotAfter(kind: Kind, a: Cell, b: Cell)
  {
    if kind == Numeric then Zeroed(a) <= Zeroed(b) else a.Null? || (b.Val? && a.v <= b.v)
  }

  function Zeroed(a: Cell): int
  {
    if a.Null? then 0 else a.v
  }

  /** Whether a column is where the level has it in that order: the same, or, in the last column, not before the record's
      on the way up, and not after it on the way down. */
  predicate Fits(kind: Kind, last: bool, up: bool, mine: Cell, other: Cell)
  {
    if !last then NotAfter(kind, mine, other) && NotAfter(kind, other, mine)
    else if up then NotAfter(kind, mine, other)
    else NotAfter(kind, other, mine)
  }

  /** What is read fits. What fits is read, but for a NULL beside a value: a row with NULL where the record has a value, and,
      in a numeric column before the last, a row with zero where the record has NULL. */
  lemma ReadsExactly(kind: Kind, last: bool, up: bool, mine: Cell, other: Cell)
    ensures Reads(kind, last, up, up, mine, other)
       <==> Fits(kind, last, up, mine, other) && !(mine.Val? && other.Null?)
            && !(kind == Numeric && !last && mine.Null? && other.Val?)
  {
  }

  /** So a skip reads the rows of its level exactly, of any record and with any NULLs, but for those rows. */
  lemma SkipReadsExactly(x: Index, level: nat, record: seq<Cell>, forward: bool, row: seq<Cell>, filter: string -> bool)
    requires 1 <= level <= |record| == |x.kinds| == |row|
    ensures Means(Text(x, level, NullsOf(record), forward), Meets(row, BoundOf(record), filter))
       <==> && (forall c :: 0 <= c < level ==> Fits(x.kinds[c], c + 1 == level, if x.reverse then !forward else forward, record[c], row[c]))
            && (forall c :: 0 <= c < level ==> !(record[c].Val? && row[c].Null?))
            && (forall c :: 0 <= c < level - 1 ==> !(x.kinds[c] == Numeric && record[c].Null? && row[c].Val?))
            && Passes(x.filters, filter)
  {
    hide Reads, Fits, Means, Clause;
    var up := forward != x.reverse;
    ClauseReads(level, record, x.kinds, x.filters, up, up, row, filter);
    forall c | 0 <= c < level
      ensures Reads(x.kinds[c], c + 1 == level, up, up, record[c], row[c])
         <==> Fits(x.kinds[c], c + 1 == level, up, record[c], row[c]) && !(record[c].Val? && row[c].Null?)
              && !(x.kinds[c] == Numeric && c + 1 < level && record[c].Null? && row[c].Val?)
    {
      ReadsExactly(x.kinds[c], c + 1 == level, up, record[c], row[c]);
    }
  }

  /** A skip back from a record with a value never reads the rows with NULL there, which come before it. */
  lemma NullIsNotRead(x: Index, value: int, filter: string -> bool)
    requires x == Index([Other], [], false)
    ensures Fits(Other, true, false, Val(value), Null)
    ensures !Means(Text(x, 1, NullsOf([Val(value)]), false), Meets([Null], BoundOf([Val(value)]), filter))
  {
    SkipReadsExactly(x, 1, [Val(value)], false, [Null], filter);
  }

  /** A seek reads what a skip from the record sought would, unless it seeks NULL in a last column that is not numeric, on a
      reversed index: there it reads rows with a value forward, where a skip does not, and none backward, where a skip does. */
  lemma SeekReadsAsSkip(x: Index, level: nat, record: seq<Cell>, forward: bool, row: seq<Cell>, filter: string -> bool)
    requires 1 <= level <= |record| == |x.kinds| == |row|
    ensures var holds, nulls := Meets(row, BoundOf(record), filter), NullsOf(record);
            var astray := x.reverse && x.kinds[level - 1] == Other && record[level - 1].Null? && row[level - 1].Val?;
            var before := (forall c :: 0 <= c < level - 1 ==> Reads(x.kinds[c], false, true, true, record[c], row[c]))
                          && Passes(x.filters, filter);
            && (!astray ==> (Means(SeekText(x, level, nulls, forward), holds) <==> Means(Text(x, level, nulls, forward), holds)))
            && (astray ==> (Means(SeekText(x, level, nulls, forward), holds) <==> forward && before))
            && (astray ==> (Means(Text(x, level, nulls, forward), holds) <==> !forward && before))
  {
    hide Means, Clause;
    var up := forward != x.reverse;
    ClauseReads(level, record, x.kinds, x.filters, up, forward, row, filter);
    ClauseReads(level, record, x.kinds, x.filters, up, up, row, filter);
    LastReads(level, record, x.kinds, up, forward, row);
    LastReads(level, record, x.kinds, up, up, row);
  }

  /** The columns before the last do not depend on the direction. */
  lemma LastReads(level: nat, record: seq<Cell>, kinds: seq<Kind>, up: bool, free: bool, row: seq<Cell>)
    requires 1 <= level <= |record| == |kinds| == |row|
    ensures AllRead(level, record, kinds, up, free, row)
       <==> (forall c :: 0 <= c < level - 1 ==> Reads(kinds[c], false, true, true, record[c], row[c]))
            && Reads(kinds[level - 1], true, up, free, record[level - 1], row[level - 1])
  {
    forall c | 0 <= c < level - 1
      ensures Reads(kinds[c], c + 1 == level, up, free, record[c], row[c]) <==> Reads(kinds[c], false, true, true, record[c], row[c])
    {
    }
  }

  // ---------------------------------------------------------------- is the current row in its own result

  /** Whether the current row meets a condition, its own values being bound. The row meets the filters. */
  function Current(nulls: seq<bool>, values: seq<int>): Part -> bool
    requires |nulls| == |values|
  {
    Meets(seq(|nulls|, c requires 0 <= c < |nulls| => if nulls[c] then Null else Val(values[c])), values, _ => true)
  }

  /** A statement that is right for the record has the record in its result, at every level. */
  lemma CurrentRowMatches(level: nat, nulls: seq<bool>, values: seq<int>, kinds: seq<Kind>, filters: seq<string>, up: bool, free: bool)
    requires level <= |nulls| == |values| == |kinds|
    ensures Means(Clause(level, nulls, kinds, filters, up, free), Current(nulls, values))
  {
    ClauseMeans(level, nulls, kinds, filters, up, free, Current(nulls, values));
  }

  /** The statement of level 1, the one that is executed, prepared for the NULLs in `marks`, has the current row in its
      result exactly when the first index column is not marked NULL, or is NULL, or is compared with zero and on the right
      side, or is left unrestricted. */
  lemma CurrentRowMatchesExactly(marks: seq<bool>, nulls: seq<bool>, values: seq<int>, kinds: seq<Kind>, filters: seq<string>, up: bool)
    requires |marks| == |nulls| == |values| == |kinds| > 0 && (nulls[0] ==> marks[0])
    ensures Means(Clause(1, marks, kinds, filters, up, up), Current(nulls, values))
       <==> !marks[0] || nulls[0] || (if kinds[0] == Numeric then (if up then values[0] >= 0 else values[0] <= 0) else up)
  {
    ClauseMeans(1, marks, kinds, filters, up, up, Current(nulls, values));
    assert ColumnsHold(1, 1, marks, kinds, up, up, Current(nulls, values))
      <==> Holds(ColumnPart(0, 1, marks[0], kinds[0], up, up), Current(nulls, values));
  }

  lemma {:induction false} NoNewNulls(nulls: seq<bool>, n: nat)
    requires n <= |nulls|
    ensures NewNulls(nulls, nulls, n) == 0
    decreases n
  {
    if n > 0 { NoNewNulls(nulls, n - 1); }
  }

  lemma {:induction false} NewNullsGrow(marks: seq<bool>, nulls: seq<bool>, n: nat)
    requires n <= |marks| == |nulls|
    ensures NewNulls(marks, nulls, n) <= NewNulls(marks, nulls, |nulls|)
    decreases |nulls| - n
  {
    if n < |nulls| { NewNullsGrow(marks, nulls, n + 1); }
  }

  lemma {:induction false} NewNullsExactly(marks: seq<bool>, nulls: seq<bool>, n: nat)
    requires n <= |marks| == |nulls|
    ensures NewNulls(marks, nulls, n) > 0 <==> exists c :: 0 <= c < n && nulls[c] && !marks[c]
    decreases n
  {
    if n > 0 { NewNullsExactly(marks, nulls, n - 1); }
  }
}
