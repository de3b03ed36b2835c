/** Numbers that arrive as text with an exponent: the mantissa is copied to a buffer of the text's length and 33 more
    characters, and its decimal point is moved there, one place at a time.
 */
module Decimal {
  import opened Chars

  const NUL: char := '\0'

  /** `u` times ten to the `n`. */
  function Scaled(u: nat, n: nat): nat
  {
    if n == 0 then u else 10 * Scaled(u, n - 1)
  }

  lemma {:induction false} ScaledTwice(u: nat, m: nat, n: nat)
    ensures Scaled(Scaled(u, m), n) == Scaled(u, m + n)
    decreases n
  {
    if n > 0 { ScaledTwice(u, m, n - 1); }
  }

  lemma {:induction false} ScaledGrows(u: nat, m: nat, n: nat)
    requires m < n
    ensures Scaled(u, m) == Scaled(u, n) <==> u == 0
    ensures u > 0 ==> 0 < Scaled(u, m) < Scaled(u, n)
    decreases n
  {
    ScaledIsZero(u, m);
    if m < n - 1 { ScaledGrows(u, m, n - 1); }
  }

  lemma {:induction false} ScaledIsZero(u: nat, m: nat)
    ensures Scaled(u, m) == 0 <==> u == 0
    decreases m
  {
    if m > 0 { ScaledIsZero(u, m - 1); }
  }

  /** The number that the first `k` characters of a text make by their digits; other characters, such as a sign or the
      point, are passed over. */
  function UnitsTo(s: string, k: nat): nat
    requires k <= |s|
  {
    if k == 0 then 0
    else if IsDigit(s[k - 1]) then 10 * UnitsTo(s, k - 1) + (s[k - 1] as int - '0' as int)
    else UnitsTo(s, k - 1)
  }

  function Units(s: string): nat
  {
    UnitsTo(s, |s|)
  }

  lemma {:induction false} UnitsOfSame(s: string, t: string, k: nat)
    requires k <= |s| && k <= |t| && forall i :: 0 <= i < k ==> s[i] == t[i]
    ensures UnitsTo(s, k) == UnitsTo(t, k)
    decreases k
  {
    if k > 0 { UnitsOfSame(s, t, k - 1); }
  }

  /** Exactly one point, at position `p`. */
  predicate OnePoint(s: string, p: nat)
  {
    p < |s| && s[p] == '.' && forall k :: 0 <= k < |s| && k != p ==> s[k] != '.'
  }

  /** How many characters come after the point. */
  ghost function Places(s: string): nat
  {
    if p: nat :| OnePoint(s, p) then |s| - 1 - p else 0
  }

  lemma PlacesIs(s: string, p: nat)
    requires OnePoint(s, p)
    ensures Places(s) == |s| - 1 - p
  {
  }

  /** `s` is the number `t` times ten to the `n`, as fractions: units over ten to the places. */
  ghost predicate IsShifted(s: string, t: string, n: nat)
  {
    Scaled(Units(s), Places(t)) == Scaled(Scaled(Units(t), n), Places(s))
  }

  lemma UnitsOfSnoc(s: string, c: char)
    ensures Units(s + [c]) == if IsDigit(c) then 10 * Units(s) + (c as int - '0' as int) else Units(s)
  {
    UnitsOfSame(s + [c], s, |s|);
  }

  lemma {:induction false} UnitsWithout(a: string, c: char, b: string)
    requires !IsDigit(c)
    ensures Units(a + [c] + b) == Units(a + b)
    decreases |b|
  {
    if b == [] {
      UnitsOfSnoc(a, c);
      assert a + [c] + b == a + [c] && a + b == a;
    } else {
      var init, last := b[..|b| - 1], b[|b| - 1];
      UnitsWithout(a, c, init);
      UnitsOfSnoc(a + [c] + init, last);
      UnitsOfSnoc(a + init, last);
      assert a + [c] + b == (a + [c] + init) + [last] && a + b == (a + init) + [last];
    }
  }

  function Zeros(k: nat): string
  {
    seq(k, _ => '0')
  }

  lemma {:induction false} UnitsOfZeros(s: string, k: nat)
    ensures Units(s + Zeros(k)) == Scaled(Units(s), k)
    decreases k
  {
    if k == 0 {
      assert s + Zeros(0) == s;
    } else {
      UnitsOfZeros(s, k - 1);
      UnitsOfSnoc(s + Zeros(k - 1), '0');
      assert s + Zeros(k) == (s + Zeros(k - 1)) + ['0'];
    }
  }

  // ---------------------------------------------------------------- moving the point

  function WithoutPoint(s: string, p: nat): string
    requires p < |s|
  {
    s[..p] + s[p + 1..]
  }

  /** The text with its point moved from position `p` to position `q`, zeros filling up behind the digits. */
  function Moved(s: string, p: nat, q: nat): string
    requires p < |s|
  {
    var d := WithoutPoint(s, p);
    if q <= |d| then d[..q] + ['.'] + d[q..] else d + Zeros(q - |d|) + ['.']
  }

  /** Where the point stops: when the exponent is used, or 32 characters past the mantissa. */
  function Stop(size: nat, p: nat, n: nat): nat
  {
    if p + n <= size + 32 then p + n else size + 32
  }

  /** The point goes when nothing comes after it and the whole exponent was used. */
  predicate Drops(size: nat, p: nat, n: nat)
  {
    p + n <= size + 32 && p + n + 1 >= size
  }

  function ButLast(r: string, drop: bool): string
  {
    if drop && r != [] then r[..|r| - 1] else r
  }

  /** The text that the shift leaves. */
  function ShiftResult(s: string, p: nat, n: nat): string
    requires p < |s|
  {
    ButLast(Moved(s, p, Stop(|s|, p, n)), Drops(|s|, p, n))
  }

  lemma UnitsOfMoved(s: string, p: nat, q: nat)
    requires OnePoint(s, p)
    ensures Units(Moved(s, p, q)) == Scaled(Units(s), if q + 1 <= |s| then 0 else q + 1 - |s|)
  {
    var d := WithoutPoint(s, p);
    assert s == s[..p] + ['.'] + s[p + 1..];
    UnitsWithout(s[..p], '.', s[p + 1..]);
    if q <= |d| {
      UnitsWithout(d[..q], '.', d[q..]);
      assert d[..q] + d[q..] == d;
    } else {
      UnitsOfZeros(d, q - |d|);
      UnitsOfSnoc(d + Zeros(q - |d|), '.');
    }
  }

  /** The characters of the mantissa without its point, and zeros behind them. */
  function DigitAt(s: string, p: nat, k: nat): char
  {
    if k < p && k < |s| then s[k] else if k + 1 < |s| then s[k + 1] else '0'
  }

  lemma MovedAt(s: string, p: nat, q: nat, k: nat)
    requires p < |s| && p <= q && k < |Moved(s, p, q)|
    ensures |Moved(s, p, q)| == if q < |s| then |s| else q + 1
    ensures Moved(s, p, q)[k] == if k > q then s[k] else if k == q then '.' else DigitAt(s, p, k)
  {
    var d := WithoutPoint(s, p);
    if q <= |d| {
      if k > q { assert Moved(s, p, q)[k] == d[q..][k - q - 1] == d[k - 1]; }
    } else if |d| <= k < q {
      assert Moved(s, p, q)[k] == Zeros(q - |d|)[k - |d|];
    }
  }

  lemma MovedPoint(s: string, p: nat, q: nat)
    requires OnePoint(s, p) && p <= q
    ensures OnePoint(Moved(s, p, q), q)
    ensures |Moved(s, p, q)| == if q < |s| then |s| else q + 1
  {
    MovedAt(s, p, q, 0);
    MovedAt(s, p, q, q);
    forall k | 0 <= k < |Moved(s, p, q)| && k != q ensures Moved(s, p, q)[k] != '.' {
      MovedAt(s, p, q, k);
    }
  }

  lemma DroppedPoint(r: string, q: nat, drop: bool)
    requires OnePoint(r, q) && (drop ==> q == |r| - 1)
    ensures Units(ButLast(r, drop)) == Units(r) && Places(ButLast(r, drop)) == |r| - 1 - q
  {
    PlacesIs(r, q);
    if drop {
      UnitsOfSnoc(r[..|r| - 1], '.');
      assert r == r[..|r| - 1] + ['.'];
    }
  }

  lemma DroppedMoved(s: string, p: nat, q: nat, drop: bool)
    requires OnePoint(s, p) && p <= q && (drop ==> q + 1 >= |s|)
    ensures Units(ButLast(Moved(s, p, q), drop)) == Units(Moved(s, p, q))
    ensures Places(ButLast(Moved(s, p, q), drop)) == if q + 1 <= |s| then |s| - 1 - q else 0
  {
    MovedPoint(s, p, q);
    DroppedPoint(Moved(s, p, q), q, drop);
  }

  /** What the shift leaves, in digits and places. */
  lemma ShiftResultIs(s: string, p: nat, n: nat)
    requires OnePoint(s, p)
    ensures var q := Stop(|s|, p, n);
            && Units(ShiftResult(s, p, n)) == Scaled(Units(s), if q + 1 <= |s| then 0 else q + 1 - |s|)
            && Places(ShiftResult(s, p, n)) == (if q + 1 <= |s| then |s| - 1 - q else 0)
  {
    ShiftedIs(s, p, Stop(|s|, p, n), Drops(|s|, p, n));
  }

  lemma ShiftedIs(s: string, p: nat, q: nat, drop: bool)
    requires OnePoint(s, p) && p <= q && (drop ==> q + 1 >= |s|)
    ensures Units(ButLast(Moved(s, p, q), drop)) == Scaled(Units(s), if q + 1 <= |s| then 0 else q + 1 - |s|)
    ensures Places(ButLast(Moved(s, p, q), drop)) == if q + 1 <= |s| then |s| - 1 - q else 0
  {
    UnitsOfMoved(s, p, q);
    DroppedMoved(s, p, q, drop);
  }

  lemma SameScale(u: nat, m: nat, n: nat, k: nat, l: nat)
    requires m + n == k + l
    ensures Scaled(Scaled(u, m), n) == Scaled(Scaled(u, k), l)
  {
    ScaledTwice(u, m, n);
    ScaledTwice(u, k, l);
  }

  lemma SmallerScale(u: nat, m: nat, n: nat, k: nat)
    requires m + n < k
    ensures Scaled(Scaled(u, m), n) == Scaled(Scaled(u, k), 0) <==> u == 0
  {
    ScaledTwice(u, m, n);
    ScaledGrows(u, m + n, k);
  }

  lemma ShiftsInRange(s: string, p: nat, n: nat)
    requires OnePoint(s, p) && p + n <= |s| + 32
    ensures IsShifted(ShiftResult(s, p, n), s, n)
  {
    ShiftResultIs(s, p, n);
    PlacesIs(s, p);
    SameScale(Units(s), if p + n + 1 <= |s| then 0 else p + n + 1 - |s|, Places(s), n, Places(ShiftResult(s, p, n)));
  }

  lemma ShiftsTooFar(s: string, p: nat, n: nat)
    requires OnePoint(s, p) && p + n > |s| + 32
    ensures IsShifted(ShiftResult(s, p, n), s, n) <==> Units(s) == 0
  {
    ShiftResultIs(s, p, n);
    PlacesIs(s, p);
    SmallerScale(Units(s), 33, Places(s), n);
  }

  /** Moving the point conserves the number, that is, multiplies it by ten to the exponent, exactly when the exponent
      takes the point no further than 32 characters past the mantissa, or the number is zero. */
  lemma ShiftExactly(s: string, p: nat, n: nat)
    requires OnePoint(s, p)
    ensures IsShifted(ShiftResult(s, p, n), s, n) <==> p + n <= |s| + 32 || Units(s) == 0
  {
    if p + n <= |s| + 32 {
      ShiftsInRange(s, p, n);
    } else {
      ShiftsTooFar(s, p, n);
    }
  }

  /** A mantissa without a point is left as it is, which is right exactly when there is nothing to multiply. */
  lemma WithoutPointExactly(s: string, n: nat)
    requires '.' !in s
    ensures IsShifted(s, s, n) <==> n == 0 || Units(s) == 0
  {
    if n > 0 { ScaledGrows(Units(s), 0, n); }
  }

  // ---------------------------------------------------------------- the buffer

  /** The characters of a buffer before the first NUL. */
  ghost predicate HoldsText(buffer: seq<char>, text: string)
  {
    && |text| < |buffer| && buffer[..|text|] == text && buffer[|text|] == NUL && NUL !in text
  }

  /** The buffer while the point is at position `q`: the digits before it, the rest of the mantissa after it. */
  ghost predicate PointHere(buffer: seq<char>, s: string, p: nat, q: nat)
    requires p < |s| && p <= q
  {
    && q < |buffer| && |s| < |buffer|
    && (forall k :: 0 <= k < q ==> buffer[k] == DigitAt(s, p, k))
    && buffer[q] == '.'
    && (forall k :: q < k < |s| ==> buffer[k] == s[k])
    && (forall k :: q < k < |buffer| && |s| <= k ==> buffer[k] == NUL)
  }

  lemma PointHereIs(buffer: seq<char>, s: string, p: nat, q: nat)
    requires p < |s| && p <= q && PointHere(buffer, s, p, q)
    ensures |Moved(s, p, q)| == (if q < |s| then |s| else q + 1) <= |buffer|
    ensures buffer[..|Moved(s, p, q)|] == Moved(s, p, q)
  {
    MovedAt(s, p, q, 0);
    forall k | 0 <= k < |Moved(s, p, q)| ensures buffer[k] == Moved(s, p, q)[k] {
      MovedAt(s, p, q, k);
    }
  }

  /** One step of the point: the character after it goes before it, or a zero where the mantissa has ended. */
  lemma PointStep(buffer: seq<char>, s: string, p: nat, q: nat)
    requires OnePoint(s, p) && NUL !in s && p <= q && q + 1 < |buffer| && PointHere(buffer, s, p, q)
    ensures (buffer[q + 1] == NUL) == (q + 1 >= |s|)
    ensures PointHere(buffer[q := if buffer[q + 1] == NUL then '0' else buffer[q + 1]][q + 1 := '.'], s, p, q + 1)
  {
    var next := buffer[q := if buffer[q + 1] == NUL then '0' else buffer[q + 1]][q + 1 := '.'];
    if q + 1 < |s| { assert s[q + 1] in s; }
    assert forall k :: 0 <= k < |buffer| && k != q && k != q + 1 ==> next[k] == buffer[k];
    assert next[q] == DigitAt(s, p, q);
  }

  lemma MovedHasNoNul(s: string, p: nat, q: nat)
    requires p < |s| && NUL !in s
    ensures NUL !in Moved(s, p, q)
  {
  }

  /** The result text once the last step was made, or no step is left. */
  lemma PointRests(buffer: seq<char>, s: string, p: nat, n: nat, q: nat)
    requires OnePoint(s, p) && NUL !in s && |s| + 33 < |buffer| && p <= q && PointHere(buffer, s, p, q)
    requires (q == p + n && q + 1 < |s|) || (q == |s| + 32 && q < p + n)
    ensures HoldsText(buffer, ShiftResult(s, p, n))
  {
    PointHereIs(buffer, s, p, q);
    MovedHasNoNul(s, p, q);
  }

  lemma PointDropped(buffer: seq<char>, s: string, p: nat, n: nat)
    requires OnePoint(s, p) && NUL !in s && |s| + 33 < |buffer| && PointHere(buffer, s, p, p + n)
    requires p + n <= |s| + 32 && p + n + 1 >= |s|
    ensures HoldsText(buffer[p + n := NUL], ShiftResult(s, p, n))
  {
    PointHereIs(buffer, s, p, p + n);
    MovedHasNoNul(s, p, p + n);
    var r := Moved(s, p, p + n);
    assert buffer[p + n := NUL][..p + n] == r[..p + n];
  }

  /** Moves the point `exponent` places, as far as there is room; iSize is the length of the mantissa. */
  method MovePoint(buffer: array<char>, s: string, iDecPos: nat, exponent: nat)
    requires NUL !in s && exponent > 0 && |s| + 33 < buffer.Length && iDecPos <= |s|
    requires buffer[..|s|] == s && forall k :: |s| <= k < buffer.Length ==> buffer[k] == NUL
    modifies buffer
    ensures OnePoint(s, iDecPos) ==> HoldsText(buffer[..], ShiftResult(s, iDecPos, exponent))
    ensures '.' !in s ==> HoldsText(buffer[..], s)
  {
    var iPos, dMultpl, iSize := iDecPos, exponent, |s|;
    while iPos < iSize + 32
      invariant iDecPos <= iPos <= iSize + 32 && 0 <= dMultpl <= exponent
      invariant '.' !in s ==> buffer[..] == old(buffer[..])
      invariant OnePoint(s, iDecPos) && dMultpl > 0 ==>
                  dMultpl == exponent - (iPos - iDecPos) && PointHere(buffer[..], s, iDecPos, iPos)
      invariant OnePoint(s, iDecPos) && dMultpl == 0 ==> HoldsText(buffer[..], ShiftResult(s, iDecPos, exponent))
    {
      if '.' !in s && iPos < |s| { assert s[iPos] in s; }
      if buffer[iPos] == '.' && dMultpl > 0 && iPos + 1 <= iSize + 32 {
        ghost var stepped := buffer[..][iPos := if buffer[iPos + 1] == NUL then '0' else buffer[iPos + 1]][iPos + 1 := '.'];
        if OnePoint(s, iDecPos) { PointStep(buffer[..], s, iDecPos, iPos); }
        buffer[iPos] := buffer[iPos + 1];
        buffer[iPos + 1] := '.';
        dMultpl := dMultpl - 1;
        if buffer[iPos] == NUL || iPos > iSize {
          buffer[iPos] := '0';
        }
        assert OnePoint(s, iDecPos) ==> buffer[..] == stepped;
        if dMultpl == 0 && buffer[iPos + 2] == NUL {
          if OnePoint(s, iDecPos) { PointDropped(buffer[..], s, iDecPos, exponent); }
          buffer[iPos + 1] := NUL;
          assert OnePoint(s, iDecPos) ==> buffer[..] == stepped[iPos + 1 := NUL];
          break;
        }
        if dMultpl == 0 && OnePoint(s, iDecPos) { PointRests(buffer[..], s, iDecPos, exponent, iPos + 1); }
      }
      iPos := iPos + 1;
    }
    if dMultpl > 0 && OnePoint(s, iDecPos) { PointRests(buffer[..], s, iDecPos, exponent, iPos); }
  }

  // ---------------------------------------------------------------- mantissa and exponent

  function CharAt(s: string, i: nat): char
  {
    if i < |s| then s[i] else NUL
  }

  /** Where the exponent begins: the first E with two more characters to come, the terminating NUL counted. */
  function ExponentAt(from: string, i: nat): (e: nat)
    requires i <= |from|
    ensures i <= e <= |from|
    decreases |from| - i
  {
    if i == |from| || (from[i] == 'E' && i + 2 <= |from|) then i else ExponentAt(from, i + 1)
  }

  /** A comma is read as a point. */
  function Mantissa(from: string, n: nat): (m: string)
    requires n <= |from|
    ensures |m| == n
  {
    seq(n, i requires 0 <= i < n => if from[i] == ',' then '.' else from[i])
  }

  /** The number that the digits at the beginning of a text make. */
  function Leading(s: string, acc: nat): nat
  {
    if s == [] || !IsDigit(s[0]) then acc else Leading(s[1..], 10 * acc + (s[0] as int - '0' as int))
  }

  /** The value of SciNot: the sign at the place after the E, then up to three digits. */
  function Exponent(from: string, e: nat): int
    requires e <= |from|
  {
    if e == |from| then 0
    else
      var digits: int := Leading([CharAt(from, e + 2), CharAt(from, e + 3), CharAt(from, e + 4)], 0);
      if CharAt(from, e + 1) == '-' then -digits else digits
  }

  // ---------------------------------------------------------------- which exponents are read as they are written

  ghost predicate AreDigits(s: string)
  {
    forall k :: 0 <= k < |s| ==> IsDigit(s[k])
  }

  predicate IsSign(c: char)
  {
    c == '+' || c == '-'
  }

  /** An exponent as it is written: digits, with or without a sign before them. */
  ghost predicate IsExponent(x: string)
  {
    && x != [] && (IsSign(x[0]) || IsDigit(x[0])) && AreDigits(x[1..]) && (IsSign(x[0]) ==> |x| > 1)
  }

  function Written(x: string): int
    requires x != []
  {
    var n: int := Leading(if IsSign(x[0]) then x[1..] else x, 0);
    if x[0] == '-' then -n else n
  }

  lemma {:induction false} LeadingOfMore(s: string, acc: nat)
    requires AreDigits(s)
    ensures Leading(s, acc) >= acc
    ensures Leading(s, acc) == 0 <==> acc == 0 && Leading(s, 0) == 0
    ensures s != [] ==> (Leading(s, acc) == acc <==> Leading(s, acc) == 0)
    decreases |s|
  {
    if s != [] {
      var digit := s[0] as int - '0' as int;
      LeadingOfMore(s[1..], 10 * acc + digit);
      LeadingOfMore(s[1..], digit);
    }
  }

  lemma {:induction false} LeadingGrows(s: string, acc: nat, more: nat)
    requires AreDigits(s) && acc < more
    ensures Leading(s, acc) < Leading(s, more)
    decreases |s|
  {
    if s != [] {
      var digit := s[0] as int - '0' as int;
      LeadingGrows(s[1..], 10 * acc + digit, 10 * more + digit);
    }
  }

  lemma {:induction false} LeadingInParts(s: string, n: nat, acc: nat)
    requires n <= |s| && AreDigits(s)
    ensures Leading(s, acc) == Leading(s[n..], Leading(s[..n], acc))
    decreases n
  {
    if n > 0 {
      var digit := s[0] as int - '0' as int;
      LeadingInParts(s[1..], n - 1, 10 * acc + digit);
      assert s[1..][n - 1..] == s[n..] && s[..n][1..] == s[1..][..n - 1];
    } else {
      assert s[0..] == s;
    }
  }

  lemma {:induction false} LeadingStops(s: string, n: nat, acc: nat)
    requires n <= |s| && AreDigits(s[..n]) && (n < |s| ==> !IsDigit(s[n]))
    ensures Leading(s, acc) == Leading(s[..n], acc)
    decreases n
  {
    if n > 0 {
      assert s[..n][0] == s[0] && s[..n][1..] == s[1..][..n - 1];
      LeadingStops(s[1..], n - 1, 10 * acc + (s[0] as int - '0' as int));
    }
  }

  /** The three characters that are read are the digits of `d` as far as there are that many. */
  lemma ThreeAreRead(d: string, a: char, b: char, c: char)
    requires AreDigits(d)
    requires a == CharAt(d, 0) && b == CharAt(d, 1) && c == CharAt(d, 2)
    ensures Leading([a, b, c], 0) == Leading(if |d| <= 3 then d else d[..3], 0)
  {
    var n := if |d| <= 3 then |d| else 3;
    var s := [a, b, c];
    assert s[..n] == d[..n] && d[..|d|] == d;
    LeadingStops(s, n, 0);
  }

  /** Of the digits `d`, three are read. */
  lemma ThreeAreEnough(d: string)
    requires AreDigits(d)
    ensures Leading(if |d| <= 3 then d else d[..3], 0) <= Leading(d, 0)
    ensures Leading(if |d| <= 3 then d else d[..3], 0) == Leading(d, 0) <==> |d| <= 3 || Leading(d, 0) == 0
  {
    if |d| > 3 {
      LeadingInParts(d, 3, 0);
      LeadingOfMore(d[3..], Leading(d[..3], 0));
    }
  }

  /** The exponent that is read is the one that is written exactly when it begins with a sign, or with a zero in its place,
      and has at most three more digits, or is zero. */
  lemma ExponentExactly(from: string, e: nat)
    requires e < |from| && IsExponent(from[e + 1..])
    ensures var x := from[e + 1..];
            Exponent(from, e) == Written(x) <==> (IsSign(x[0]) || x[0] == '0') && (|x| <= 4 || Written(x) == 0)
  {
    var x := from[e + 1..];
    var d := x[1..];
    ThreeAreRead(d, CharAt(from, e + 2), CharAt(from, e + 3), CharAt(from, e + 4));
    ThreeAreEnough(d);
    if !IsSign(x[0]) {
      assert Leading(x, 0) == Leading(d, x[0] as int - '0' as int);
      if x[0] != '0' { LeadingGrows(d, 0, x[0] as int - '0' as int); }
    }
  }

  /** An exponent without a sign loses its first digit: 1.5E12 is read as 1.5 times ten to the 2. */
  lemma UnsignedExponentFails()
    ensures Exponent("1.5E12", 3) == 2 && Written("12") == 12
  {
    var d := "12";
    assert d[1..] == "2" && "2"[1..] == "";
    assert Leading("2", 1) == 12 && Leading("12", 0) == Leading("2", 1);
    var r := [CharAt("1.5E12", 5), CharAt("1.5E12", 6), CharAt("1.5E12", 7)];
    assert r == ['2', NUL, NUL] && r[1..] == [NUL, NUL];
    assert Leading([NUL, NUL], 2) == 2;
  }

  /** The position of the last point; 0 when there is none. */
  function LastPoint(m: string, n: nat): (p: nat)
    requires n <= |m|
    ensures p <= n
  {
    if n == 0 then 0 else if m[n - 1] == '.' then n - 1 else LastPoint(m, n - 1)
  }

  lemma {:induction false} LastPointIs(m: string, n: nat, p: nat)
    requires OnePoint(m, p) && p < n <= |m|
    ensures LastPoint(m, n) == p
    decreases n
  {
    if n - 1 != p { LastPointIs(m, n - 1, p); }
  }

  /** The copy loop. */
  method CopyMantissa(from: string, buffer: array<char>) returns (iSize: nat, iDecPos: nat)
    requires buffer.Length == |from| + 33 && forall k :: 0 <= k < buffer.Length ==> buffer[k] == NUL
    modifies buffer
    ensures iSize == ExponentAt(from, 0) && iDecPos == LastPoint(Mantissa(from, iSize), iSize)
    ensures buffer[..iSize] == Mantissa(from, iSize)
    ensures forall k :: iSize <= k < buffer.Length ==> buffer[k] == NUL
  {
    iDecPos := 0;
    var iPos := 0;
    while iPos < |from|
      invariant iPos <= |from| && ExponentAt(from, 0) == ExponentAt(from, iPos)
      invariant buffer[..iPos] == Mantissa(from, iPos) && iDecPos == LastPoint(Mantissa(from, iPos), iPos)
      invariant forall k :: iPos <= k < buffer.Length ==> buffer[k] == NUL
    {
      if from[iPos] == 'E' && iPos + 2 <= |from| {
        break;
      }
      buffer[iPos] := if from[iPos] == ',' then '.' else from[iPos];
      LastPointOfMore(from, iPos);
      if buffer[iPos] == '.' {
        iDecPos := iPos;
      }
      iPos := iPos + 1;
    }
    iSize := iPos;
  }

  lemma {:induction false} LastPointSame(m: string, t: string, n: nat)
    requires n <= |m| && n <= |t| && forall i :: 0 <= i < n ==> m[i] == t[i]
    ensures LastPoint(m, n) == LastPoint(t, n)
    decreases n
  {
    if n > 0 { LastPointSame(m, t, n - 1); }
  }

  lemma LastPointOfMore(from: string, i: nat)
    requires i < |from|
    ensures LastPoint(Mantissa(from, i + 1), i + 1)
         == if Mantissa(from, i + 1)[i] == '.' then i else LastPoint(Mantissa(from, i), i)
  {
    LastPointSame(Mantissa(from, i + 1), Mantissa(from, i), i);
  }

  // ---------------------------------------------------------------- from the text to the number

  /** The text with commas as points. */
  function Dotted(s: string): (d: string)
    ensures |d| == |s| && forall k :: 0 <= k < |s| ==> d[k] == if s[k] == ',' then '.' else s[k]
  {
    seq(|s|, k requires 0 <= k < |s| => if s[k] == ',' then '.' else s[k])
  }

  predicate IsSeparator(c: char)
  {
    c == '.' || c == ','
  }

  /** Exactly one point or comma, at position `p`. */
  ghost predicate SeparatedAt(m: string, p: nat)
  {
    p < |m| && forall k :: 0 <= k < |m| ==> (IsSeparator(m[k]) <==> k == p)
  }

  ghost predicate NoSeparator(m: string)
  {
    forall k :: 0 <= k < |m| ==> !IsSeparator(m[k])
  }

  /** A text in scientific notation: mantissa, E, exponent. */
  ghost predicate Scientific(from: string, m: string, x: string)
  {
    from == m + ['E'] + x && 'E' !in m && IsExponent(x)
  }

  /** `text` is the number of `units` over ten to the `places`, times ten to the `n`. */
  ghost predicate IsTimes(text: string, units: nat, places: nat, n: int)
  {
    if n >= 0 then Scaled(Units(text), places) == Scaled(Scaled(units, n), Places(text))
    else Scaled(Scaled(Units(text), -n), places) == Scaled(units, Places(text))
  }

  /** The exponents with which the point is moved as it should be. */
  predicate Shiftable(size: nat, p: nat, x: string)
    requires x != []
  {
    Written(x) > 0 && (IsSign(x[0]) || x[0] == '0') && |x| <= 4 && p + Written(x) <= size + 32
  }

  lemma {:induction false} ExponentIsThere(from: string, m: string, x: string, i: nat)
    requires Scientific(from, m, x) && i <= |m|
    ensures ExponentAt(from, i) == |m|
    decreases |m| - i
  {
    if i < |m| {
      assert from[i] == m[i] && m[i] in m;
      ExponentIsThere(from, m, x, i + 1);
    }
  }

  lemma {:induction false} NoExponent(from: string, i: nat)
    requires 'E' !in from && i <= |from|
    ensures ExponentAt(from, i) == |from|
    decreases |from| - i
  {
    if i < |from| { NoExponent(from, i + 1); }
  }

  lemma {:induction false} UnitsOfDotted(m: string, k: nat)
    requires k <= |m|
    ensures UnitsTo(Dotted(m), k) == UnitsTo(m, k)
    decreases k
  {
    if k > 0 { UnitsOfDotted(m, k - 1); }
  }

  /** What is read of an exponent does not pass what is written. */
  lemma ExponentWithin(from: string, e: nat)
    requires e < |from| && IsExponent(from[e + 1..])
    ensures var x := from[e + 1..];
            if x[0] == '-' then Exponent(from, e) <= 0 && Written(x) <= 0 else 0 <= Exponent(from, e) <= Written(x)
  {
    var x := from[e + 1..];
    var d := x[1..];
    ThreeAreRead(d, CharAt(from, e + 2), CharAt(from, e + 3), CharAt(from, e + 4));
    ThreeAreEnough(d);
    if !IsSign(x[0]) {
      assert Leading(x, 0) == Leading(d, x[0] as int - '0' as int);
      if x[0] != '0' { LeadingGrows(d, 0, x[0] as int - '0' as int); }
    }
  }

  /** A text that is left as it is. */
  lemma UnchangedExactly(t: string, places: nat, n: int)
    requires Places(t) == places
    ensures IsTimes(t, Units(t), places, n) <==> n == 0 || Units(t) == 0
  {
    ScaledTwice(Units(t), if n >= 0 then n else -n, places);
    if n != 0 { ScaledGrows(Units(t), places, (if n >= 0 then n else -n) + places); }
  }

  /** A text whose point was moved by `read` places where `n` are written. */
  lemma MovedExactly(t: string, p: nat, read: nat, n: nat)
    requires OnePoint(t, p) && 0 < read <= n
    ensures IsTimes(ShiftResult(t, p, read), Units(t), |t| - 1 - p, n)
       <==> Units(t) == 0 || (read == n && p + n <= |t| + 32)
  {
    ShiftResultIs(t, p, read);
    var q, places := Stop(|t|, p, read), |t| - 1 - p;
    var a, b := if q + 1 <= |t| then 0 else q + 1 - |t|, if q + 1 <= |t| then |t| - 1 - q else 0;
    assert a + places == q - p + b;
    ScaledTwice(Units(t), a, places);
    ScaledTwice(Units(t), n, b);
    if a + places < n + b { ScaledGrows(Units(t), a + places, n + b); }
  }

  lemma DottedPoint(m: string, p: nat)
    requires SeparatedAt(m, p)
    ensures OnePoint(Dotted(m), p) && Places(Dotted(m)) == |m| - 1 - p && Units(Dotted(m)) == Units(m)
  {
    UnitsOfDotted(m, |m|);
    PlacesIs(Dotted(m), p);
  }

  /** The text left for a number in scientific notation is that number exactly when the number is zero, the exponent is zero,
      or the exponent is positive, read as it is written, and within the buffer. */
  lemma NumberExactly(from: string, m: string, x: string, p: nat, text: string)
    requires Scientific(from, m, x) && SeparatedAt(m, p)
    requires Exponent(from, |m|) <= 0 ==> text == Dotted(m)
    requires Exponent(from, |m|) > 0 ==> text == ShiftResult(Dotted(m), p, Exponent(from, |m|))
    ensures IsTimes(text, Units(m), |m| - 1 - p, Written(x)) <==> Units(m) == 0 || Written(x) == 0 || Shiftable(|m|, p, x)
  {
    hide Exponent, Written, ShiftResult, IsTimes, Units, Places;
    var read, n := Exponent(from, |m|), Written(x);
    assert from[|m| + 1..] == x;
    DottedPoint(m, p);
    ExponentWithin(from, |m|);
    ExponentExactly(from, |m|);
    if read <= 0 {
      UnchangedExactly(Dotted(m), |m| - 1 - p, n);
    } else {
      MovedExactly(Dotted(m), p, read, n);
    }
  }

  /** A mantissa without a point or comma is left as it is. */
  lemma WholeNumberExactly(m: string, n: int)
    requires NoSeparator(m)
    ensures IsTimes(Dotted(m), Units(m), 0, n) <==> Units(m) == 0 || n == 0
  {
    UnitsOfDotted(m, |m|);
    assert forall k :: 0 <= k < |m| ==> Dotted(m)[k] == m[k];
    UnchangedExactly(Dotted(m), 0, n);
  }

  /** The characters before the first NUL. */
  function TextOf(buffer: seq<char>): string
  {
    if buffer == [] || buffer[0] == NUL then [] else [buffer[0]] + TextOf(buffer[1..])
  }

  lemma {:induction false} TextIs(buffer: seq<char>, text: string)
    requires HoldsText(buffer, text)
    ensures TextOf(buffer) == text
    decreases |text|
  {
    if text != [] {
      assert buffer[0] == buffer[..|text|][0] == text[0] && text[0] in text;
      assert buffer[1..][..|text| - 1] == buffer[..|text|][1..] == text[1..];
      TextIs(buffer[1..], text[1..]);
    }
  }

  /** What the buffer holds after the shift. */
  ghost predicate HoldsShifted(from: string, buffer: seq<char>)
  {
    var e := ExponentAt(from, 0);
    var m, n := Mantissa(from, e), Exponent(from, e);
    && (n <= 0 || '.' !in m ==> HoldsText(buffer, m))
    && (n > 0 ==> forall p :: OnePoint(m, p) ==> HoldsText(buffer, ShiftResult(m, p, n)))
  }

  lemma MantissaIs(from: string, m: string)
    requires m <= from
    ensures Mantissa(from, |m|) == Dotted(m)
  {
  }

  lemma SeparatedIs(from: string, buffer: seq<char>, m: string, x: string, p: nat)
    requires HoldsShifted(from, buffer) && Scientific(from, m, x) && SeparatedAt(m, p)
    ensures IsTimes(TextOf(buffer), Units(m), |m| - 1 - p, Written(x))
       <==> Units(m) == 0 || Written(x) == 0 || Shiftable(|m|, p, x)
  {
    hide Exponent, ShiftResult, IsTimes, HoldsText, Units, Places, Shiftable, Written;
    ExponentIsThere(from, m, x, 0);
    MantissaIs(from, m);
    DottedPoint(m, p);
    var n := Exponent(from, |m|);
    var text := if n <= 0 then Dotted(m) else ShiftResult(Dotted(m), p, n);
    TextIs(buffer, text);
    NumberExactly(from, m, x, p, text);
  }

  lemma WholeIs(from: string, buffer: seq<char>, m: string, x: string)
    requires HoldsShifted(from, buffer) && Scientific(from, m, x) && NoSeparator(m)
    ensures IsTimes(TextOf(buffer), Units(m), 0, Written(x)) <==> Units(m) == 0 || Written(x) == 0
  {
    ExponentIsThere(from, m, x, 0);
    MantissaIs(from, m);
    TextIs(buffer, Dotted(m));
    WholeNumberExactly(m, Written(x));
  }

  /** What is left of a number. Without E its characters, with a comma as point. In scientific notation, with one point or
      comma, the number that is written exactly if it is zero, or its exponent is, or the point can be moved as the exponent
      says; without one, exactly if it or its exponent is zero. */
  ghost predicate Leaves(from: string, text: string)
  {
    && ('E' !in from ==> text == Dotted(from))
    && (forall m, x, p :: Scientific(from, m, x) && SeparatedAt(m, p) ==>
          (IsTimes(text, Units(m), |m| - 1 - p, Written(x)) <==> Units(m) == 0 || Written(x) == 0 || Shiftable(|m|, p, x)))
    && (forall m, x :: Scientific(from, m, x) && NoSeparator(m) ==>
          (IsTimes(text, Units(m), 0, Written(x)) <==> Units(m) == 0 || Written(x) == 0))
  }

  lemma NumberIs(from: string, buffer: seq<char>)
    requires HoldsShifted(from, buffer)
    ensures Leaves(from, TextOf(buffer))
  {
    if 'E' !in from {
      NoExponent(from, 0);
      MantissaIs(from, from);
      TextIs(buffer, Dotted(from));
    }
    hide TextOf, IsTimes, Units, Written, Shiftable, Scientific, SeparatedAt, NoSeparator, HoldsShifted;
    forall m, x, p | Scientific(from, m, x) && SeparatedAt(m, p)
      ensures IsTimes(TextOf(buffer), Units(m), |m| - 1 - p, Written(x))
         <==> Units(m) == 0 || Written(x) == 0 || Shiftable(|m|, p, x)
    {
      SeparatedIs(from, buffer, m, x, p);
    }
    forall m, x | Scientific(from, m, x) && NoSeparator(m)
      ensures IsTimes(TextOf(buffer), Units(m), 0, Written(x)) <==> Units(m) == 0 || Written(x) == 0
    {
      WholeIs(from, buffer, m, x);
    }
  }

  method ShiftNumber(from: string, buffer: array<char>)
    requires NUL !in from
    requires buffer.Length == |from| + 33 && forall k :: 0 <= k < buffer.Length ==> buffer[k] == NUL
    modifies buffer
    ensures HoldsShifted(from, buffer[..])
  {
    var iSize, iDecPos := CopyMantissa(from, buffer);
    var m, dMultpl := Mantissa(from, iSize), Exponent(from, iSize);
    MantissaHasNoNul(from, iSize);
    if dMultpl > 0 {
      MovePoint(buffer, m, iDecPos, dMultpl);
    }
    forall p | OnePoint(m, p) ensures p == iDecPos && '.' in m {
      LastPointIs(m, iSize, p);
    }
  }

  lemma MantissaHasNoNul(from: string, n: nat)
    requires n <= |from| && NUL !in from
    ensures NUL !in Mantissa(from, n)
  {
    forall i | 0 <= i < n ensures Mantissa(from, n)[i] != NUL {
      assert from[i] in from;
    }
  }

  /** The text that sr_escapeNumber has the number read from: the mantissa, its point moved by a positive exponent. */
  method EscapeNumber(from: string, buffer: array<char>)
    requires NUL !in from
    requires buffer.Length == |from| + 33 && forall k :: 0 <= k < buffer.Length ==> buffer[k] == NUL
    modifies buffer
    ensures Leaves(from, TextOf(buffer[..]))
  {
    ShiftNumber(from, buffer);
    NumberIs(from, buffer[..]);
  }
}
