/** The INSERT statement: the list of columns, the list of parameters, which is written into a buffer of 600 characters,
    and the numbers that the parameters are bound with.
 */
module Insert {

  const FIELD_LIST_SIZE_PARAM: nat := 600

  /** The columns from 1 to `n`, without the one that holds the record number (0 when there is none). */
  function Columns(n: nat, recno: nat): seq<nat>
  {
    if n == 0 then [] else Columns(n - 1, recno) + if n == recno then [] else [n]
  }

  /** ",?" for each of `k` parameters. */
  function Params(k: nat): (s: string)
    ensures |s| == 2 * k
  {
    if k == 0 then [] else Params(k - 1) + [',', '?']
  }

  lemma {:induction false} ParamsAt(k: nat, i: nat)
    requires i < 2 * k
    ensures Params(k)[i] == if i % 2 == 0 then ',' else '?'
    decreases k
  {
    if i < 2 * (k - 1) { ParamsAt(k - 1, i); }
  }

  /** The text of the parameters: a blank, and then question marks with a comma between each two. */
  ghost predicate IsParamList(text: string, k: nat)
  {
    && |text| == 2 * k
    && forall i :: 0 <= i < |text| ==> text[i] == if i == 0 then ' ' else if i % 2 == 0 then ',' else '?'
  }

  lemma ParamsAreList(k: nat)
    requires k > 0
    ensures IsParamList([' '] + Params(k)[1..], k)
  {
    forall i | 0 < i < 2 * k ensures ([' '] + Params(k)[1..])[i] == if i % 2 == 0 then ',' else '?' {
      ParamsAt(k, i);
    }
  }

  lemma {:induction false} ColumnsCount(n: nat, recno: nat)
    ensures |Columns(n, recno)| == if 1 <= recno <= n then n - 1 else n
    decreases n
  {
    if n > 0 { ColumnsCount(n - 1, recno); }
  }

  lemma {:induction false} ColumnsGrow(m: nat, n: nat, recno: nat)
    requires m <= n
    ensures Columns(m, recno) <= Columns(n, recno)
    decreases n
  {
    if m < n { ColumnsGrow(m, n - 1, recno); }
  }

  /** Column `i` is the parameter after those of the columns before it. */
  lemma ColumnAt(n: nat, recno: nat, i: nat)
    requires 1 <= i <= n && i != recno
    ensures |Columns(i - 1, recno)| < |Columns(n, recno)| && Columns(n, recno)[|Columns(i - 1, recno)|] == i
  {
    ColumnsGrow(i, n, recno);
    assert Columns(i, recno) == Columns(i - 1, recno) + [i];
    assert Columns(i, recno)[|Columns(i - 1, recno)|] == i;
  }

  /** The parameter list and its terminating NUL fit the buffer exactly when there are at most 299 columns to insert. */
  predicate Fits(n: nat, recno: nat)
  {
    |Columns(n, recno)| <= 299
  }

  /** Where the NUL after column `i`'s parameter is written, which is the last of its three writes. */
  function LastWrite(i: nat, recno: nat): nat
    requires i >= 1
  {
    2 * |Columns(i - 1, recno)| + 2
  }

  ghost predicate WritesInside(n: nat, recno: nat)
  {
    forall i: nat :: 1 <= i <= n && i != recno ==> LastWrite(i, recno) < FIELD_LIST_SIZE_PARAM
  }

  /** The loop stays inside the buffer exactly for these tables; otherwise the first write that leaves it is that of column
      300, or of column 301 when the record number is among the first 300. */
  lemma FitsExactly(n: nat, recno: nat)
    ensures WritesInside(n, recno) <==> Fits(n, recno)
    ensures Fits(n, recno) <==> n <= (if 1 <= recno <= n then 300 else 299)
    ensures forall i: nat :: 1 <= i && i != recno ==>
              (LastWrite(i, recno) >= FIELD_LIST_SIZE_PARAM <==> i >= if 1 <= recno <= 300 then 301 else 300)
  {
    ColumnsCount(n, recno);
    forall i: nat | 1 <= i && i != recno
      ensures LastWrite(i, recno) >= FIELD_LIST_SIZE_PARAM <==> i >= if 1 <= recno <= 300 then 301 else 300
    {
      ColumnsCount(i - 1, recno);
    }
    if !Fits(n, recno) {
      var first := if 1 <= recno <= 300 then 301 else 300;
      assert LastWrite(first, recno) >= FIELD_LIST_SIZE_PARAM;
    }
  }

  /** Writes both lists. The first comma becomes a blank in the end. */
  method CreateInsertStmt(iCols: nat, ulhRecno: nat, sParams: array<char>) returns (sFields: seq<nat>)
    requires sParams.Length == FIELD_LIST_SIZE_PARAM && Fits(iCols, ulhRecno) && |Columns(iCols, ulhRecno)| > 0
    modifies sParams
    ensures sFields == Columns(iCols, ulhRecno)
    ensures var k := |sFields|;
            && 2 * k < sParams.Length && sParams[2 * k] == '\0'
            && IsParamList(sParams[..2 * k], k)
  {
    sFields := [];
    var uiPos, i := 0, 1;
    while i <= iCols
      invariant 1 <= i <= iCols + 1 && sFields == Columns(i - 1, ulhRecno)
      invariant uiPos == 2 * |sFields| && |sFields| <= 299
      invariant sParams[..uiPos] == Params(|sFields|)
      invariant uiPos > 0 ==> sParams[uiPos] == '\0'
    {
      ColumnsGrow(i, iCols, ulhRecno);
      if i != ulhRecno {
        sFields := sFields + [i];
        sParams[uiPos] := ',';
        uiPos := uiPos + 1;
        sParams[uiPos] := '?';
        uiPos := uiPos + 1;
        sParams[uiPos] := '\0';
      }
      i := i + 1;
    }
    ghost var written := sParams[..uiPos];
    sParams[0] := ' ';
    ParamsAreList(|sFields|);
    assert sParams[..uiPos] == [' '] + written[1..];
  }

  /** Binds the parameters in a loop of its own; `iParNum[i]` is the number of column `i`'s parameter, 0 when it has none. */
  method BindInsertColumns(iCols: nat, ulhRecno: nat) returns (iParNum: seq<nat>)
    ensures |iParNum| == iCols + 1
    ensures forall i :: 1 <= i <= iCols ==>
              iParNum[i] == if i == ulhRecno then 0 else |Columns(i - 1, ulhRecno)| + 1
  {
    iParNum := seq(iCols + 1, _ => 0);
    var iBind, iCol := 0, 1;
    while iCol <= iCols
      invariant 1 <= iCol <= iCols + 1 && |iParNum| == iCols + 1 && iBind == |Columns(iCol - 1, ulhRecno)|
      invariant forall i :: iCol <= i <= iCols ==> iParNum[i] == 0
      invariant forall i :: 1 <= i < iCol ==>
                  iParNum[i] == if i == ulhRecno then 0 else |Columns(i - 1, ulhRecno)| + 1
    {
      if iCol != ulhRecno {
        iBind := iBind + 1;
        iParNum := iParNum[iCol := iBind];
      }
      iCol := iCol + 1;
    }
  }

  /** The lists and the numbers enumerate the same columns: there is a `?` for each listed column, and the parameter bound
      for a column stands at the place of that column in the list. */
  lemma ListsMatch(iCols: nat, ulhRecno: nat, iParNum: seq<nat>, i: nat)
    requires |iParNum| == iCols + 1 && 1 <= i <= iCols
    requires iParNum[i] == if i == ulhRecno then 0 else |Columns(i - 1, ulhRecno)| + 1
    ensures i != ulhRecno ==> 1 <= iParNum[i] <= |Columns(iCols, ulhRecno)| && Columns(iCols, ulhRecno)[iParNum[i] - 1] == i
    ensures i == ulhRecno ==> i !in Columns(iCols, ulhRecno)
  {
    if i != ulhRecno {
      ColumnAt(iCols, ulhRecno, i);
    } else {
      NeverListed(iCols, ulhRecno);
    }
  }

  lemma {:induction false} NeverListed(n: nat, recno: nat)
    ensures recno !in Columns(n, recno)
    decreases n
  {
    if n > 0 { NeverListed(n - 1, recno); }
  }
}
