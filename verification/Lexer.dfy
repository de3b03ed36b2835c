/** The character literals of SQLRDD's own lexer, against the literals that Quoting.dfy writes. */
module Lexer {
  import opened Quoting

  /** The position after the closing quote of a literal, when the lexer is at position `i` inside of it; -1 when it
      reports an unterminated string. After a backslash the next character is skipped, and after an escaped quote one
      more: the source expects that quote to come doubled. */
  function StringEnd(text: string, i: nat): (end: int)
    ensures end == -1 || i < end <= |text|
    decreases |text| - i
  {
    if i >= |text| then -1
    else if text[i] == '\\' then
      if i + 1 >= |text| then -1
      else if text[i + 1] == '\'' then
        if i + 2 >= |text| then -1 else StringEnd(text, i + 3)
      else StringEnd(text, i + 2)
    else if text[i] == '\'' then i + 1
    else StringEnd(text, i + 1)
  }

  datatype Token = StringVal(value: string) | ErrorVal

  /** The token at a quote, and the new queryPtr. */
  function Scan(query: string, start: nat): (Token, nat)
    requires start < |query|
  {
    var end := StringEnd(query, start + 1);
    if end == -1 then (ErrorVal, start) else (StringVal(query[start + 1..end - 1]), end)
  }

  /** The string branch of sqlyylex, at a quote; `next` is the new queryPtr. */
  method ScanString(query: string, start: nat) returns (token: Token, next: nat)
    requires start < |query| && query[start] == '\''
    ensures (token, next) == Scan(query, start)
  {
    var queryPtr := start + 1;
    while queryPtr < |query|
      invariant start + 1 <= queryPtr
      invariant StringEnd(query, queryPtr) == StringEnd(query, start + 1)
      decreases |query| - queryPtr
    {
      var c := query[queryPtr];
      queryPtr := queryPtr + 1;
      if c == '\\' {
        if queryPtr == |query| {
          break;
        }
        c := query[queryPtr];
        queryPtr := queryPtr + 1;
        if c == '\'' {
          if queryPtr == |query| {
            break;
          }
          queryPtr := queryPtr + 1;
        }
      } else if c == '\'' {
        return StringVal(query[start + 1..queryPtr - 1]), queryPtr;
      }
    }
    return ErrorVal, start;
  }

  // ---------------------------------------------------------------- which literals the lexer reads back

  /** What a string must be like for its literal to be read back, `open` saying that a backslash or a quote that was
      written before `s` still takes the next character with it.
      MySQL: after each single quote, backslashes apart, there is a character, and it is not a quote.
      PostgreSQL: no single quote.
      The others: each single quote comes after a backslash that is not itself taken, and no such backslash ends the string. */
  predicate Readable(style: Style, s: string, open: bool)
    decreases |s|
  {
    if s == [] then !open
    else if style == Mysql then
      if s[0] == '\'' then !open && Readable(style, s[1..], true)
      else Readable(style, s[1..], open && s[0] == '\\')
    else if style == Pgs then
      s[0] != '\'' && Readable(style, s[1..], open)
    else if EscapeChar(style, s[0]) == [] then Readable(style, s[1..], open)
    else if open then Readable(style, s[1..], false)
    else s[0] != '\'' && Readable(style, s[1..], s[0] == '\\')
  }

  /** The lexer stops right after the closing quote of a literal for `s`. */
  predicate EndsRight(text: string, i: nat, rest: string)
  {
    StringEnd(text, i) == |text| - |rest|
  }

  /** The next escaped character of the text, one character at a time. */
  lemma NextChar(style: Style, text: string, j: nat, s: string, rest: string)
    requires Follows(style, text, j, s, rest) && s != []
    ensures var e := EscapeChar(style, s[0]);
            && j + |e| + |rest| < |text| && Follows(style, text, j + |e|, s[1..], rest)
            && (|e| > 0 ==> text[j] == e[0]) && (|e| > 1 ==> text[j + 1] == e[1])
  {
    FollowsNext(style, text, j, s, rest);
    var e := EscapeChar(style, s[0]);
    if |e| > 0 { assert text[j] == text[j..j + |e|][0]; }
    if |e| > 1 { assert text[j + 1] == text[j..j + |e|][1]; }
    assert |text[j + |e|..]| > |rest|;
  }

  lemma {:induction false} PgsEndsExactly(text: string, i: nat, s: string, rest: string)
    requires Follows(Pgs, text, i, s, rest)
    ensures EndsRight(text, i, rest) <==> Readable(Pgs, s, false)
    decreases |s|
  {
    if s == [] {
      FollowsEnd(Pgs, text, i, rest);
    } else {
      NextChar(Pgs, text, i, s, rest);
      PgsEndsExactly(text, i + |EscapeChar(Pgs, s[0])|, s[1..], rest);
    }
  }

  /** The lexer is at a backslash that takes the character at `j`. */
  predicate AtBackslash(text: string, i: nat, j: nat)
  {
    i + 1 == j && i < |text| && text[i] == '\\'
  }

  /** One character further: the lexer position and the position of the rest, or the lexer has stopped too early. */
  lemma StandardNext(style: Style, text: string, i: nat, j: nat, s: string, rest: string) returns (early: bool, i1: nat, j1: nat)
    requires style in {Single, Style.Firebird, Db2, Oci} && Follows(style, text, j, s, rest) && s != []
    requires i == j || AtBackslash(text, i, j)
    ensures early ==> !EndsRight(text, i, rest) && !Readable(style, s, i != j)
    ensures !early ==>
              && Follows(style, text, j1, s[1..], rest) && (i1 == j1 || AtBackslash(text, i1, j1))
              && StringEnd(text, i) == StringEnd(text, i1)
              && Readable(style, s, i != j) == Readable(style, s[1..], i1 != j1)
  {
    NextChar(style, text, j, s, rest);
    j1 := j + |EscapeChar(style, s[0])|;
    early := i == j && s[0] == '\'';
    i1 := if j1 == j || (i == j && s[0] == '\\') then i else j1;
  }

  lemma StandardAtEnd(style: Style, text: string, i: nat, j: nat, rest: string)
    requires Follows(style, text, j, [], rest) && (i == j || AtBackslash(text, i, j))
    ensures EndsRight(text, i, rest) <==> i == j
  {
    FollowsEnd(style, text, j, rest);
  }

  lemma {:induction false} StandardEndsExactly(style: Style, text: string, i: nat, j: nat, s: string, rest: string)
    requires style in {Single, Style.Firebird, Db2, Oci} && Follows(style, text, j, s, rest)
    requires i == j || AtBackslash(text, i, j)
    ensures EndsRight(text, i, rest) <==> Readable(style, s, i != j)
    decreases |s|
  {
    if s == [] {
      StandardAtEnd(style, text, i, j, rest);
    } else {
      var early, i1, j1 := StandardNext(style, text, i, j, s, rest);
      if !early { StandardEndsExactly(style, text, i1, j1, s[1..], rest); }
    }
  }

  /** The lexer is past the first character of what was written for `s`, or at a backslash before it. */
  predicate Shifted(text: string, i: nat, j: nat)
  {
    i == j + 1 || AtBackslash(text, i, j)
  }

  /** The lexer over one escaped character of a MySQL literal. */
  lemma MysqlStep(text: string, i: nat, j: nat, c: char)
    requires i == j || Shifted(text, i, j)
    requires var e := EscapeChar(Mysql, c);
             j + |e| < |text| && text[j] == e[0] && (|e| > 1 ==> text[j + 1] == e[1])
    ensures var next := j + |EscapeChar(Mysql, c)|;
            StringEnd(text, i) == if c == '\'' then (if i == j then StringEnd(text, next + 1) else next)
                                  else if i != j && c == '\\' then StringEnd(text, j + 1)
                                  else StringEnd(text, next)
    ensures c == '\\' ==> AtBackslash(text, j + 1, j + 2)
  {
    if i + 1 == j { assert StringEnd(text, i) == StringEnd(text, j + 1); }
  }

  /** An escaped quote while the lexer is shifted closes the literal too early. */
  lemma MysqlStops(text: string, i: nat, j: nat, s: string, rest: string)
    requires Follows(Mysql, text, j, s, rest) && s != [] && s[0] == '\'' && Shifted(text, i, j)
    ensures !EndsRight(text, i, rest)
  {
    NextChar(Mysql, text, j, s, rest);
    MysqlStep(text, i, j, s[0]);
  }

  /** One character further: the lexer position, and the position of the rest of the literal. */
  lemma MysqlNext(text: string, i: nat, j: nat, s: string, rest: string) returns (i1: nat, j1: nat)
    requires Follows(Mysql, text, j, s, rest) && s != [] && (i == j || (Shifted(text, i, j) && s[0] != '\''))
    ensures Follows(Mysql, text, j1, s[1..], rest) && (i1 == j1 || Shifted(text, i1, j1))
    ensures StringEnd(text, i) == StringEnd(text, i1)
    ensures (i1 != j1) == (s[0] == '\'' || (i != j && s[0] == '\\'))
  {
    NextChar(Mysql, text, j, s, rest);
    i1, j1 := MysqlMoves(text, i, j, s[0]);
  }

  lemma MysqlMoves(text: string, i: nat, j: nat, c: char) returns (i1: nat, j1: nat)
    requires i == j || (Shifted(text, i, j) && c != '\'')
    requires var e := EscapeChar(Mysql, c);
             j + |e| < |text| && text[j] == e[0] && (|e| > 1 ==> text[j + 1] == e[1])
    ensures j1 == j + |EscapeChar(Mysql, c)| && (i1 == j1 || Shifted(text, i1, j1))
    ensures StringEnd(text, i) == StringEnd(text, i1)
    ensures (i1 != j1) == (c == '\'' || (i != j && c == '\\'))
  {
    MysqlStep(text, i, j, c);
    j1 := j + |EscapeChar(Mysql, c)|;
    i1 := if c == '\'' then j1 + 1 else if i != j && c == '\\' then j + 1 else j1;
  }

  lemma MysqlAtEnd(text: string, i: nat, j: nat, rest: string)
    requires Follows(Mysql, text, j, [], rest) && (i == j || Shifted(text, i, j))
    ensures EndsRight(text, i, rest) <==> i == j
  {
    FollowsEnd(Mysql, text, j, rest);
  }

  lemma {:induction false} MysqlEndsExactly(text: string, i: nat, j: nat, s: string, rest: string)
    requires Follows(Mysql, text, j, s, rest)
    requires i == j || Shifted(text, i, j)
    ensures EndsRight(text, i, rest) <==> Readable(Mysql, s, i != j)
    decreases |s|
  {
    if s == [] {
      MysqlAtEnd(text, i, j, rest);
    } else {
      if i != j && s[0] == '\'' {
        MysqlStops(text, i, j, s, rest);
      } else {
        var i1, j1 := MysqlNext(text, i, j, s, rest);
        MysqlEndsExactly(text, i1, j1, s[1..], rest);
      }
    }
  }

  /** SQLRDD's lexer reads the literal for `s` as one string token whose text is exactly the escaped body, with queryPtr
      just past the closing quote, whatever text follows, exactly when what is stored is readable in the sense above. */
  lemma ReadsBackExactly(style: Style, s: string, bRTrim: bool, memory: string, rest: string)
    requires style != Unlisted && |memory| == 2 * |s| + 3
    ensures var q, u := Quoted(style, s, bRTrim, memory), Stored(style, s, bRTrim);
            Scan(q + rest, 0) == (StringVal(Escape(style, u)), |q|) <==> Readable(style, u, false)
  {
    var q, u := Quoted(style, s, bRTrim, memory), Stored(style, s, bRTrim);
    QuotedIs(style, s, bRTrim, memory);
    assert (q + rest)[1..|q| - 1] == Escape(style, u);
    EndsExactly(style, u, rest);
  }

  lemma EndsExactly(style: Style, u: string, rest: string)
    requires style != Unlisted
    ensures var q := ['\''] + Escape(style, u) + ['\''];
            StringEnd(q + rest, 1) == |q| <==> Readable(style, u, false)
  {
    var q := ['\''] + Escape(style, u) + ['\''];
    BodyFollows(style, u, rest);
    if style == Mysql {
      MysqlEndsExactly(q + rest, 1, 1, u, rest);
    } else if style == Pgs {
      PgsEndsExactly(q + rest, 1, u, rest);
    } else {
      StandardEndsExactly(style, q + rest, 1, 1, u, rest);
    }
  }

  lemma {:induction false} ReadableWithoutQuotes(style: Style, s: string)
    requires (style == Mysql || style == Pgs) && '\'' !in s
    ensures Readable(style, s, false)
    decreases |s|
  {
    if s != [] {
      assert s == [s[0]] + s[1..];
      ReadableWithoutQuotes(style, s[1..]);
    }
  }

  /** So the MySQL or PostgreSQL literal for a string without quotes is one token: its escaped body. */
  lemma WithoutQuotes(style: Style, s: string, bRTrim: bool, memory: string, rest: string)
    requires (style == Mysql || style == Pgs) && '\'' !in s && |memory| == 2 * |s| + 3
    ensures var q := Quoted(style, s, bRTrim, memory);
            Scan(q + rest, 0) == (StringVal(Escape(style, Stored(style, s, bRTrim))), |q|)
  {
    ReadsBackExactly(style, s, bRTrim, memory, rest);
    StoredHas(style, s, bRTrim, '\'');
    ReadableWithoutQuotes(style, Stored(style, s, bRTrim));
  }
}
