/** Character literals: how SQLRDD writes them for each database system, how the systems read them, and how
    SQLRDD's own lexer does.
 */
module Quoting {
  import opened Dialects

  const NUL: char := '\0'
  const SUB: char := '\U{001A}'

  /** The six escape functions, and the systems for which none is called. */
  datatype Style = Mysql | Single | Firebird | Db2 | Pgs | Oci | Unlisted

  function StyleOf(db: Rdbms): Style
  {
    match db
    case MySql | MariaDb => Mysql
    case Firebird | Firebird3 | Firebird4 | Firebird5 => Style.Firebird
    case Oracle | Cache => Oci
    case MsSql7 | Ingres | Sybase | Adabas | Informix | Oterro | Pervasive => Single
    case Postgres => Pgs
    case IbmDb2 => Db2
    case _ => Unlisted
  }

  // ---------------------------------------------------------------- writing

  /** What becomes of a character: written as it is, twice, as a letter after a backslash, as a blank, or not at all. */
  datatype Code = Keep | Twice | Slash(letter: char) | Blank | Drop

  function CodeOf(style: Style, c: char): Code
  {
    match style
    case Mysql =>
      if c == NUL then Slash('0')
      else if c == '\n' then Slash('n')
      else if c == '\r' then Slash('r')
      else if c == '\\' || c == '\'' || c == '"' then Slash(c)
      else if c == SUB then Slash('Z')
      else Keep
    case Single => if c == '\'' then Twice else Keep
    case Firebird | Db2 => if c == '\'' then Twice else if c == NUL then Blank else Keep
    case Pgs => if c == '\'' || c == '\\' then Twice else if c == NUL then Drop else Keep
    case Oci => if c == '\'' then Twice else if c == NUL then Drop else Keep
    case Unlisted => Keep
  }

  function Text(code: Code, c: char): (e: string)
    ensures |e| <= 2
  {
    match code
    case Keep => [c]
    case Twice => [c, c]
    case Slash(letter) => ['\\', letter]
    case Blank => [' ']
    case Drop => []
  }

  /** What a system is meant to store for the character. */
  function Value(code: Code, c: char): string
  {
    match code
    case Blank => [' ']
    case Drop => []
    case _ => [c]
  }

  function EscapeChar(style: Style, c: char): (e: string)
    ensures |e| <= 2
  {
    Text(CodeOf(style, c), c)
  }

  /** The characters that are not written as they are. */
  function Specials(style: Style): set<char>
  {
    match style
    case Mysql => {NUL, '\n', '\r', '\\', '\'', '"', SUB}
    case Pgs => {NUL, '\\', '\''}
    case Oci | Firebird | Db2 => {NUL, '\''}
    case Single => {'\''}
    case Unlisted => {}
  }

  lemma SpecialsExactly(style: Style, c: char)
    ensures EscapeChar(style, c) == [c] <==> c !in Specials(style)
    ensures |EscapeChar(style, c)| == 2 <==> c in Specials(style) && (c != NUL || style == Mysql)
  {
  }

  function Escape(style: Style, s: string): (e: string)
    ensures |e| <= 2 * |s|
  {
    if s == [] then [] else EscapeChar(style, s[0]) + Escape(style, s[1..])
  }

  /** What the escape functions let a system store: some of them drop NUL, some write a blank for it. */
  function Clean(style: Style, s: string): string
  {
    if s == [] then [] else CleanChar(style, s[0]) + Clean(style, s[1..])
  }

  function CleanChar(style: Style, c: char): string
  {
    Value(CodeOf(style, c), c)
  }

  /** The string without its trailing blanks. */
  function TrimRight(s: string): (r: string)
    ensures r <= s && (r == [] || r[|r| - 1] != ' ')
    ensures forall k :: |r| <= k < |s| ==> s[k] == ' '
  {
    if s != [] && s[|s| - 1] == ' ' then TrimRight(s[..|s| - 1]) else s
  }

  /** The text between the quotes. For a system that is not listed nothing is written there: the buffer keeps what
      `memory` held. */
  function Body(style: Style, s: string, memory: string): string
    requires |memory| == 2 * |s| + 3
  {
    if style == Unlisted then memory[1..|s| + 1] else Escape(style, s)
  }

  function Quoted(style: Style, s: string, bRTrim: bool, memory: string): string
    requires |memory| == 2 * |s| + 3
  {
    var body := Body(style, s, memory);
    ['\''] + (if bRTrim then TrimRight(body) else body) + ['\'']
  }

  lemma Associative(a: string, b: string, c: string)
    ensures a + b + c == a + (b + c)
  {
  }

  lemma {:induction false} EscapeOfConcat(style: Style, s: string, t: string)
    ensures Escape(style, s + t) == Escape(style, s) + Escape(style, t)
    decreases |s|
  {
    if s == [] {
      assert s + t == t;
    } else {
      EscapeOfConcat(style, s[1..], t);
      assert (s + t)[1..] == s[1..] + t;
      Associative(EscapeChar(style, s[0]), Escape(style, s[1..]), Escape(style, t));
    }
  }

  lemma EscapeOfSnoc(style: Style, s: string, i: nat)
    requires i < |s|
    ensures Escape(style, s[..i + 1]) == Escape(style, s[..i]) + EscapeChar(style, s[i])
  {
    assert s[..i + 1] == s[..i] + [s[i]];
    EscapeOfConcat(style, s[..i], [s[i]]);
    assert Escape(style, [s[i]]) == EscapeChar(style, s[i]);
  }

  /** `before` with `text` written over it from position `at` on. */
  ghost predicate Written(after: seq<char>, before: seq<char>, at: nat, text: string)
  {
    && |after| == |before| && at + |text| <= |after|
    && forall k :: 0 <= k < |after| ==> after[k] == if at <= k < at + |text| then text[k - at] else before[k]
  }

  lemma WrittenMore(after: seq<char>, between: seq<char>, before: seq<char>, at: nat, text: string, more: string)
    requires Written(between, before, at, text) && Written(after, between, at + |text|, more)
    ensures Written(after, before, at, text + more)
  {
  }

  lemma WrittenIs(after: seq<char>, before: seq<char>, at: nat, text: string)
    requires Written(after, before, at, text)
    ensures after[at..at + |text|] == text
  {
  }

  method Put(buffer: array<char>, to: nat, text: string) returns (next: nat)
    requires to + |text| <= buffer.Length && |text| <= 2
    modifies buffer
    ensures next == to + |text| && Written(buffer[..], old(buffer[..]), to, text)
  {
    next := to;
    if |text| > 0 {
      buffer[next] := text[0];
      next := next + 1;
    }
    if |text| > 1 {
      buffer[next] := text[1];
      next := next + 1;
    }
  }

  /** The loop of the escape functions: `to` moves through the buffer from position `at`. */
  method EscapeInto(style: Style, buffer: array<char>, at: nat, from: string) returns (size: nat)
    requires style != Unlisted && at + 2 * |from| < buffer.Length
    modifies buffer
    ensures size == |Escape(style, from)|
    ensures Written(buffer[..], old(buffer[..]), at, Escape(style, from) + [NUL])
  {
    hide CodeOf, Specials, Clean;
    var to, i := at, 0;
    ghost var text := "";
    while i < |from|
      invariant i <= |from| && text == Escape(style, from[..i]) && to == at + |text|
      invariant Written(buffer[..], old(buffer[..]), at, text)
    {
      EscapeOfSnoc(style, from, i);
      ghost var between := buffer[..];
      to := Put(buffer, to, EscapeChar(style, from[i]));
      WrittenMore(buffer[..], between, old(buffer[..]), at, text, EscapeChar(style, from[i]));
      text := text + EscapeChar(style, from[i]);
      i := i + 1;
    }
    assert from[..i] == from;
    ghost var between := buffer[..];
    var end := Put(buffer, to, [NUL]);
    WrittenMore(buffer[..], between, old(buffer[..]), at, text, [NUL]);
    size := to - at;
  }

  /** The trailing blanks of buffer[1..size] are left out. */
  method TrimmedSize(buffer: array<char>, size: nat) returns (iSize: nat)
    requires 1 <= size <= buffer.Length
    ensures 1 <= iSize <= size && buffer[1..iSize] == TrimRight(buffer[1..size])
  {
    iSize := size;
    while iSize > 1 && buffer[iSize - 1] == ' '
      invariant 1 <= iSize <= size
      invariant TrimRight(buffer[1..iSize]) == TrimRight(buffer[1..size])
    {
      assert buffer[1..iSize][..iSize - 2] == buffer[1..iSize - 1];
      iSize := iSize - 1;
    }
  }

  /** The body of the literal, from position 1 of the buffer. */
  method WriteBody(from: string, style: Style, buffer: array<char>) returns (size: nat)
    requires buffer.Length == 2 * |from| + 3
    modifies buffer
    ensures size <= 2 * |from| && buffer[1..size + 1] == Body(style, from, old(buffer[..])) && buffer[0] == old(buffer[0])
  {
    size := |from|;
    if style != Unlisted {
      ghost var before := buffer[..];
      size := EscapeInto(style, buffer, 1, from);
      WrittenIs(buffer[..], before, 1, Escape(style, from) + [NUL]);
      assert buffer[1..size + 2] == Escape(style, from) + [NUL];
      assert buffer[1..size + 1] == buffer[1..size + 2][..size];
    }
  }

  method CloseQuote(buffer: array<char>, iSize: nat) returns (iSizeOut: nat)
    requires 1 <= iSize && iSize + 1 < buffer.Length
    modifies buffer
    ensures iSizeOut == iSize + 1 && buffer[iSizeOut] == NUL
    ensures buffer[..iSizeOut] == [old(buffer[0])] + old(buffer[1..iSize]) + ['\'']
  {
    ghost var body := buffer[1..iSize];
    buffer[iSize] := '\'';
    iSizeOut := iSize + 1;
    buffer[iSizeOut] := NUL;
    assert buffer[1..iSize] == body;
    assert buffer[..iSizeOut] == [buffer[0]] + buffer[1..iSize] + ['\''];
  }

  method QuoteTrimEscapeString(from: string, db: Rdbms, bRTrim: bool, buffer: array<char>) returns (iSizeOut: nat)
    requires buffer.Length == 2 * |from| + 3
    modifies buffer
    ensures iSizeOut <= 2 * |from| + 2
    ensures buffer[..iSizeOut] == Quoted(StyleOf(db), from, bRTrim, old(buffer[..]))
    ensures buffer[iSizeOut] == NUL
  {
    ghost var memory := buffer[..];
    buffer[0] := '\'';
    assert buffer[..][1..|from| + 1] == memory[1..|from| + 1];
    var iSize := WriteBody(from, StyleOf(db), buffer);
    iSize := iSize + 1;
    assert buffer[1..iSize] == Body(StyleOf(db), from, memory);
    if bRTrim {
      iSize := TrimmedSize(buffer, iSize);
    }
    iSizeOut := CloseQuote(buffer, iSize);
  }

  // ---------------------------------------------------------------- reading by the database system

  /** How a system reads a literal: with doubled quotes only (subclause 5.3 of ISO/IEC 9075-2), or with backslash
      escapes too, as MySQL does and PostgreSQL does when standard_conforming_strings is off. */
  datatype Rule = Standard | MysqlEscapes | PgsEscapes

  function RuleOf(style: Style): Rule
  {
    match style
    case Mysql => MysqlEscapes
    case Pgs => PgsEscapes
    case _ => Standard
  }

  function Unescaped(rule: Rule, c: char): char
  {
    if c == 'n' then '\n'
    else if c == 'r' then '\r'
    else if c == 't' then '\t'
    else if rule == MysqlEscapes && c == '0' then NUL
    else if rule == MysqlEscapes && c == 'Z' then SUB
    else c
  }

  /** The value of a literal, and the position after its closing quote. */
  datatype Reading = Literal(value: string, next: nat) | Unterminated

  function Prepend(v: string, r: Reading): Reading
  {
    match r
    case Literal(value, next) => Literal(v + value, next)
    case Unterminated => Unterminated
  }

  /** Reads on at position `i`, inside of a literal. */
  function ReadLiteral(rule: Rule, text: string, i: nat): Reading
    decreases |text| - i
  {
    if i >= |text| then Unterminated
    else if text[i] == '\'' then
      if i + 1 < |text| && text[i + 1] == '\'' then Prepend(['\''], ReadLiteral(rule, text, i + 2))
      else Literal([], i + 1)
    else if rule != Standard && text[i] == '\\' then
      if i + 1 < |text| then Prepend([Unescaped(rule, text[i + 1])], ReadLiteral(rule, text, i + 2))
      else Unterminated
    else Prepend([text[i]], ReadLiteral(rule, text, i + 1))
  }

  /** From position `i` on the text is what was written for `s`, the closing quote, and `rest`. */
  ghost predicate Follows(style: Style, text: string, i: nat, s: string, rest: string)
  {
    i <= |text| && text[i..] == Escape(style, s) + ['\''] + rest
  }

  /** The text after a literal does not go on with a quote, which would continue the literal. */
  predicate NoQuote(rest: string)
  {
    rest == [] || rest[0] != '\''
  }

  lemma SplitAt(text: string, i: nat, e: string, tail: string)
    requires i <= |text| && text[i..] == e + tail
    ensures i + |e| <= |text| && text[i + |e|..] == tail && text[i..i + |e|] == e
  {
    assert text[i + |e|..] == text[i..][|e|..];
    assert text[i..i + |e|] == text[i..][..|e|];
  }

  lemma FollowsNext(style: Style, text: string, i: nat, s: string, rest: string)
    requires Follows(style, text, i, s, rest) && s != []
    ensures var e := EscapeChar(style, s[0]);
            i + |e| <= |text| && text[i..i + |e|] == e && Follows(style, text, i + |e|, s[1..], rest)
  {
    var e := EscapeChar(style, s[0]);
    var tail := Escape(style, s[1..]) + ['\''] + rest;
    assert Escape(style, s) + ['\''] + rest == e + tail;
    SplitAt(text, i, e, tail);
  }

  lemma FollowsEnd(style: Style, text: string, i: nat, rest: string)
    requires Follows(style, text, i, [], rest)
    ensures i + 1 + |rest| == |text| && text[i] == '\'' && (NoQuote(rest) && i + 1 < |text| ==> text[i + 1] != '\'')
  {
    assert text[i..] == ['\''] + rest;
    SplitAt(text, i, ['\''], rest);
    assert text[i] == text[i..][0];
    if i + 1 < |text| { assert text[i + 1] == text[i + 1..][0]; }
  }

  /** The rule undoes the code. */
  predicate Undone(rule: Rule, code: Code, c: char)
  {
    match code
    case Keep => c != '\'' && (rule == Standard || c != '\\')
    case Twice => c == '\'' || (c == '\\' && rule == PgsEscapes)
    case Slash(letter) => rule == MysqlEscapes && Unescaped(rule, letter) == c
    case _ => true
  }

  lemma RuleUndoes(style: Style, c: char)
    requires style != Unlisted
    ensures Undone(RuleOf(style), CodeOf(style, c), c)
  {
  }

  lemma TextReadsBack(rule: Rule, code: Code, c: char, text: string, i: nat)
    requires Undone(rule, code, c) && i + |Text(code, c)| < |text| && text[i..i + |Text(code, c)|] == Text(code, c)
    ensures ReadLiteral(rule, text, i) == Prepend(Value(code, c), ReadLiteral(rule, text, i + |Text(code, c)|))
  {
    var e := Text(code, c);
    match code {
      case Drop => NothingPrepended(ReadLiteral(rule, text, i));
      case Keep | Blank => assert text[i] == text[i..i + |e|][0];
      case Twice | Slash(_) =>
        assert text[i] == text[i..i + |e|][0];
        assert text[i + 1] == text[i..i + |e|][1];
    }
  }

  lemma NothingPrepended(r: Reading)
    ensures Prepend([], r) == r
  {
    if r.Literal? { assert [] + r.value == r.value; }
  }

  /** An escaped character reads back as what it stands for. */
  lemma CharReadsBack(style: Style, c: char, text: string, i: nat)
    requires style != Unlisted && i + |EscapeChar(style, c)| < |text|
    requires text[i..i + |EscapeChar(style, c)|] == EscapeChar(style, c)
    ensures ReadLiteral(RuleOf(style), text, i)
         == Prepend(CleanChar(style, c), ReadLiteral(RuleOf(style), text, i + |EscapeChar(style, c)|))
  {
    RuleUndoes(style, c);
    TextReadsBack(RuleOf(style), CodeOf(style, c), c, text, i);
  }

  lemma CharFollows(style: Style, text: string, i: nat, s: string, rest: string) returns (j: nat)
    requires style != Unlisted && Follows(style, text, i, s, rest) && s != []
    ensures Follows(style, text, j, s[1..], rest)
    ensures ReadLiteral(RuleOf(style), text, i) == Prepend(CleanChar(style, s[0]), ReadLiteral(RuleOf(style), text, j))
  {
    FollowsNext(style, text, i, s, rest);
    j := i + |EscapeChar(style, s[0])|;
    assert |text[j..]| > 0;
    CharReadsBack(style, s[0], text, i);
  }

  lemma {:induction false} EscapedReadsBack(style: Style, text: string, i: nat, s: string, rest: string)
    requires style != Unlisted && Follows(style, text, i, s, rest) && NoQuote(rest)
    ensures ReadLiteral(RuleOf(style), text, i) == Literal(Clean(style, s), |text| - |rest|)
    decreases |s|
  {
    if s == [] {
      FollowsEnd(style, text, i, rest);
    } else {
      var j := CharFollows(style, text, i, s, rest);
      EscapedReadsBack(style, text, j, s[1..], rest);
    }
  }

  // ---------------------------------------------------------------- trimming the escaped text

  lemma {:induction false} CleanOfConcat(style: Style, s: string, t: string)
    ensures Clean(style, s + t) == Clean(style, s) + Clean(style, t)
    decreases |s|
  {
    if s == [] {
      assert s + t == t;
    } else {
      CleanOfConcat(style, s[1..], t);
      assert (s + t)[1..] == s[1..] + t;
      Associative(CleanChar(style, s[0]), Clean(style, s[1..]), Clean(style, t));
    }
  }

  lemma EscapeOne(style: Style, c: char)
    ensures Escape(style, [c]) == EscapeChar(style, c) && Clean(style, [c]) == CleanChar(style, c)
  {
    assert Escape(style, [c][1..]) == [] && Clean(style, [c][1..]) == [];
  }

  lemma CleanCharIsClean(style: Style, c: char)
    ensures Escape(style, CleanChar(style, c)) == EscapeChar(style, c)
    ensures Clean(style, CleanChar(style, c)) == CleanChar(style, c)
  {
    EscapeOne(style, c);
    EscapeOne(style, ' ');
  }

  lemma {:induction false} EscapeOfClean(style: Style, s: string)
    ensures Escape(style, Clean(style, s)) == Escape(style, s)
    ensures Clean(style, Clean(style, s)) == Clean(style, s)
    decreases |s|
  {
    if s != [] {
      EscapeOfClean(style, s[1..]);
      CleanCharIsClean(style, s[0]);
      EscapeOfConcat(style, CleanChar(style, s[0]), Clean(style, s[1..]));
      CleanOfConcat(style, CleanChar(style, s[0]), Clean(style, s[1..]));
    }
  }

  /** A character is escaped to text that ends with a blank only when a blank is stored for it. */
  lemma BlankOrNot(style: Style, c: char)
    requires style != Unlisted
    ensures var e, v := EscapeChar(style, c), CleanChar(style, c);
            (e == v == []) || (e == v == [' ']) || (|e| > 0 && |v| > 0 && e[|e| - 1] != ' ' && v[|v| - 1] != ' ')
  {
  }

  lemma TrimOfPair(e1: string, e: string, v1: string, v: string)
    requires (e == v == []) || (e == v == [' ']) || (|e| > 0 && |v| > 0 && e[|e| - 1] != ' ' && v[|v| - 1] != ' ')
    ensures (TrimRight(e1 + e) == TrimRight(e1) && TrimRight(v1 + v) == TrimRight(v1))
         || (TrimRight(e1 + e) == e1 + e && TrimRight(v1 + v) == v1 + v)
  {
    TrimOfConcat(e1, e);
    TrimOfConcat(v1, v);
  }

  /** Trimming the escaped text is escaping the trimmed text. */
  lemma {:induction false} TrimOfEscape(style: Style, s: string)
    requires style != Unlisted
    ensures TrimRight(Escape(style, s)) == Escape(style, TrimRight(Clean(style, s)))
    decreases |s|
  {
    if s != [] {
      var t, c := s[..|s| - 1], s[|s| - 1];
      assert s == t + [c];
      TrimOfEscape(style, t);
      EscapeOfConcat(style, t, [c]);
      CleanOfConcat(style, t, [c]);
      EscapeOne(style, c);
      EscapeOfClean(style, s);
      BlankOrNot(style, c);
      TrimOfPair(Escape(style, t), EscapeChar(style, c), Clean(style, t), CleanChar(style, c));
    }
  }

  lemma TrimOfConcat(s: string, e: string)
    ensures e == [] ==> TrimRight(s + e) == TrimRight(s)
    ensures e == [' '] ==> TrimRight(s + e) == TrimRight(s)
    ensures e != [] && e[|e| - 1] != ' ' ==> TrimRight(s + e) == s + e
  {
    assert e == [] ==> s + e == s;
    assert e == [' '] ==> (s + e)[..|s + e| - 1] == s;
  }

  function WithoutNul(s: string): string
  {
    if s == [] then []
    else if s[0] == NUL then WithoutNul(s[1..])
    else [s[0]] + WithoutNul(s[1..])
  }

  /** All characters but NUL are there as often as before, and a string without NUL stays the same. */
  lemma {:induction false} OnlyNulGoes(s: string)
    ensures multiset(WithoutNul(s)) == multiset(s)[NUL := 0]
    ensures NUL !in s ==> WithoutNul(s) == s
    decreases |s|
  {
    if s != [] {
      OnlyNulGoes(s[1..]);
      assert s == [s[0]] + s[1..];
    }
  }

  function BlankForNul(s: string): (r: string)
    ensures |r| == |s|
  {
    seq(|s|, k requires 0 <= k < |s| => if s[k] == NUL then ' ' else s[k])
  }

  /** What is to be stored of `s`: all of it, but for NUL characters, which PostgreSQL, Oracle and Cache do not get, and which
      are blanks for Firebird and DB2. */
  function Meant(style: Style, s: string): string
  {
    match style
    case Pgs | Oci => WithoutNul(s)
    case Firebird | Db2 => BlankForNul(s)
    case _ => s
  }

  lemma BlankStep(s: string)
    requires s != []
    ensures BlankForNul(s) == [if s[0] == NUL then ' ' else s[0]] + BlankForNul(s[1..])
  {
  }

  lemma MeantStep(style: Style, s: string)
    requires s != []
    ensures Meant(style, s) == CleanChar(style, s[0]) + Meant(style, s[1..])
  {
    hide BlankForNul;
    BlankStep(s);
    assert s == [s[0]] + s[1..];
    match style
    case Pgs | Oci => assert WithoutNul(s) == CleanChar(style, s[0]) + WithoutNul(s[1..]);
    case _ =>
  }

  lemma {:induction false} CleanIsMeant(style: Style, s: string)
    ensures Clean(style, s) == Meant(style, s)
    decreases |s|
  {
    if s != [] {
      hide Meant, CleanChar;
      CleanIsMeant(style, s[1..]);
      MeantStep(style, s);
    }
  }

  /** What a system stores for `s`. */
  function Stored(style: Style, s: string, bRTrim: bool): (stored: string)
  {
    if bRTrim then TrimRight(Meant(style, s)) else Meant(style, s)
  }

  lemma StoredIs(style: Style, s: string, bRTrim: bool)
    ensures Stored(style, s, bRTrim) == if bRTrim then TrimRight(Clean(style, s)) else Clean(style, s)
  {
    CleanIsMeant(style, s);
  }

  lemma BodyFollows(style: Style, s: string, rest: string)
    ensures var q := ['\''] + Escape(style, s) + ['\''];
            Follows(style, q + rest, 1, s, rest) && |q + rest| - |rest| == |q|
  {
    var q := ['\''] + Escape(style, s) + ['\''];
    assert (q + rest)[1..] == Escape(style, s) + ['\''] + rest;
  }

  lemma QuotedIs(style: Style, s: string, bRTrim: bool, memory: string)
    requires style != Unlisted && |memory| == 2 * |s| + 3
    ensures Quoted(style, s, bRTrim, memory) == ['\''] + Escape(style, Stored(style, s, bRTrim)) + ['\'']
  {
    StoredIs(style, s, bRTrim);
    EscapeOfClean(style, s);
    if bRTrim { TrimOfEscape(style, s); }
  }

  /** The literal reads back as the string, whatever follows it that does not begin with a quote: NUL is removed for
      PostgreSQL, Oracle and Cache, and a blank for Firebird and DB2; trailing blanks go when asked for. */
  lemma QuotedReadsBack(style: Style, s: string, bRTrim: bool, memory: string, rest: string)
    requires style != Unlisted && |memory| == 2 * |s| + 3 && NoQuote(rest)
    ensures var q := Quoted(style, s, bRTrim, memory);
            ReadLiteral(RuleOf(style), q + rest, 1) == Literal(Stored(style, s, bRTrim), |q|)
  {
    var q := Quoted(style, s, bRTrim, memory);
    var u := Stored(style, s, bRTrim);
    QuotedIs(style, s, bRTrim, memory);
    BodyFollows(style, u, rest);
    EscapedReadsBack(style, q + rest, 1, u, rest);
    StoredIsClean(style, s, bRTrim);
  }

  ghost predicate IsClean(style: Style, s: string)
  {
    forall k :: 0 <= k < |s| ==> CleanChar(style, s[k]) == [s[k]]
  }

  lemma {:induction false} CleanIsClean(style: Style, s: string)
    ensures IsClean(style, Clean(style, s))
    decreases |s|
  {
    if s != [] {
      CleanIsClean(style, s[1..]);
      var v, w := CleanChar(style, s[0]), Clean(style, s[1..]);
      assert forall k :: |v| <= k < |v + w| ==> (v + w)[k] == w[k - |v|];
    }
  }

  lemma {:induction false} CleanStays(style: Style, s: string)
    requires IsClean(style, s)
    ensures Clean(style, s) == s
    decreases |s|
  {
    if s != [] {
      assert forall k :: 0 <= k < |s[1..]| ==> s[1..][k] == s[k + 1];
      CleanStays(style, s[1..]);
    }
  }

  lemma StoredIsClean(style: Style, s: string, bRTrim: bool)
    ensures Clean(style, Stored(style, s, bRTrim)) == Stored(style, s, bRTrim)
  {
    StoredIs(style, s, bRTrim);
    CleanIsClean(style, s);
    CleanStays(style, Stored(style, s, bRTrim));
  }

  ghost predicate ReadsBackAlways(style: Style)
  {
    forall s: string, bRTrim: bool, memory: string :: |memory| == 2 * |s| + 3 ==>
      var q := Quoted(style, s, bRTrim, memory);
      ReadLiteral(RuleOf(style), q, 1) == Literal(Stored(style, s, bRTrim), |q|)
  }

  /** Literals read back, for all strings, exactly for the systems that have an escape function. For the others the text
      between the quotes is never written. */
  lemma ReadsBackExactly(db: Rdbms)
    ensures ReadsBackAlways(StyleOf(db)) <==> StyleOf(db) != Unlisted
  {
    var style := StyleOf(db);
    if style != Unlisted {
      forall s: string, bRTrim: bool, memory: string | |memory| == 2 * |s| + 3
        ensures var q := Quoted(style, s, bRTrim, memory);
                ReadLiteral(RuleOf(style), q, 1) == Literal(Stored(style, s, bRTrim), |q|)
      {
        QuotedReadsBack(style, s, bRTrim, memory, []);
        assert Quoted(style, s, bRTrim, memory) + [] == Quoted(style, s, bRTrim, memory);
      }
    } else {
      var q := Quoted(style, "a", false, "xxxxx");
      assert q == ['\'', 'x', '\''];
      assert ReadLiteral(Standard, q, 2) == Literal([], 3);
      assert ReadLiteral(Standard, q, 1) == Literal(['x'], 3);
      assert Stored(style, "a", false) == ['a'];
    }
  }

  /** What PostgreSQL reads when standard_conforming_strings is on: backslashes come twice. */
  function Doubled(s: string): string
  {
    if s == [] then []
    else (if s[0] == '\\' then ['\\', '\\'] else CleanChar(Pgs, s[0])) + Doubled(s[1..])
  }

  lemma PgsCharDoubles(c: char, text: string, i: nat)
    requires i + |EscapeChar(Pgs, c)| < |text| && text[i..i + |EscapeChar(Pgs, c)|] == EscapeChar(Pgs, c)
    ensures ReadLiteral(Standard, text, i)
         == Prepend(if c == '\\' then ['\\', '\\'] else CleanChar(Pgs, c),
                    ReadLiteral(Standard, text, i + |EscapeChar(Pgs, c)|))
  {
    var e := EscapeChar(Pgs, c);
    if |e| > 0 { assert text[i] == text[i..i + |e|][0]; }
    if |e| > 1 { assert text[i + 1] == text[i..i + |e|][1]; }
  }

  lemma PgsNext(text: string, i: nat, s: string, rest: string) returns (j: nat)
    requires Follows(Pgs, text, i, s, rest) && s != []
    ensures Follows(Pgs, text, j, s[1..], rest)
    ensures ReadLiteral(Standard, text, i)
         == Prepend(if s[0] == '\\' then ['\\', '\\'] else CleanChar(Pgs, s[0]), ReadLiteral(Standard, text, j))
  {
    FollowsNext(Pgs, text, i, s, rest);
    j := i + |EscapeChar(Pgs, s[0])|;
    assert |text[j..]| > 0;
    PgsCharDoubles(s[0], text, i);
  }

  lemma {:induction false} PgsReadsDoubled(text: string, i: nat, s: string, rest: string)
    requires Follows(Pgs, text, i, s, rest) && NoQuote(rest)
    ensures ReadLiteral(Standard, text, i) == Literal(Doubled(s), |text| - |rest|)
    decreases |s|
  {
    if s == [] {
      FollowsEnd(Pgs, text, i, rest);
    } else {
      var j := PgsNext(text, i, s, rest);
      PgsReadsDoubled(text, j, s[1..], rest);
    }
  }

  lemma {:induction false} DoubledExactly(s: string)
    ensures |Doubled(s)| >= |Clean(Pgs, s)|
    ensures Doubled(s) == Clean(Pgs, s) <==> '\\' !in s
    ensures |Doubled(s)| == |Clean(Pgs, s)| <==> '\\' !in s
    decreases |s|
  {
    if s != [] {
      DoubledExactly(s[1..]);
      assert s == [s[0]] + s[1..];
    }
  }

  lemma {:induction false} CleanHas(style: Style, s: string, c: char)
    ensures c in Clean(style, s) ==> c in s || c == ' '
    ensures c in s && CleanChar(style, c) == [c] ==> c in Clean(style, s)
    decreases |s|
  {
    if s != [] {
      CleanHas(style, s[1..], c);
      assert s == [s[0]] + s[1..];
    }
  }

  lemma {:induction false} TrimHas(s: string, c: char)
    ensures c in TrimRight(s) ==> c in s
    ensures c in s && c != ' ' ==> c in TrimRight(s)
    decreases |s|
  {
    if s != [] && s[|s| - 1] == ' ' {
      TrimHas(s[..|s| - 1], c);
      assert s == s[..|s| - 1] + [s[|s| - 1]];
    }
  }

  /** What is stored has the characters of the string, but for blanks and what the style drops. */
  lemma StoredHas(style: Style, s: string, bRTrim: bool, c: char)
    requires c != ' ' && CleanChar(style, c) == [c]
    ensures c in Stored(style, s, bRTrim) <==> c in s
  {
    StoredIs(style, s, bRTrim);
    CleanHas(style, s, c);
    TrimHas(Clean(style, s), c);
  }

  /** With standard_conforming_strings on, a PostgreSQL literal reads back exactly when the string has no backslash. */
  lemma PgsStandardExactly(s: string, bRTrim: bool, memory: string)
    requires |memory| == 2 * |s| + 3
    ensures var q := Quoted(Pgs, s, bRTrim, memory);
            ReadLiteral(Standard, q, 1) == Literal(Stored(Pgs, s, bRTrim), |q|) <==> '\\' !in s
  {
    var q, u := Quoted(Pgs, s, bRTrim, memory), Stored(Pgs, s, bRTrim);
    QuotedIs(Pgs, s, bRTrim, memory);
    BodyFollows(Pgs, u, []);
    assert q + [] == q;
    PgsReadsDoubled(q, 1, u, []);
    DoubledExactly(u);
    StoredIsClean(Pgs, s, bRTrim);
    StoredHas(Pgs, s, bRTrim, '\\');
  }
}
