/** The tokens of SQLRDD's SQL lexer: where each ends, which words are keywords, and that a query has no more tokens
    than characters.
 */
module Tokens {
  import opened Chars
  import L = Lexer

  /** A keyword stands alone, or is a function with its opening parenthesis and something after that. RIGHT is neither:
      it is tested with a parenthesis as its last letter. */
  datatype Form = Alone | Call | ParenAsLetter

  datatype Keyword = Keyword(word: string, form: Form)

  datatype Relation = Lower | LowerOrEqual | Greater | GreaterOrEqual | Different

  datatype Token =
    | Eof | ErrorVal | IntegerVal | RealVal | StringVal(value: string) | QuotedIdent(name: string) | DateVal(date: string)
    | BindVar | Operator(sign: char) | Asterisk | Equals | Compare(relation: Relation) | Not | Param | ParamNotNull
    | Reserved(keyword: Keyword) | Ident(text: string) | Character(c: char)

  /** The switch on the first letter, and under each letter the tests in their order. */
  function KeywordsOf(first: char): seq<Keyword>
  {
    match first
    case 'a' => [Keyword("all", Alone), Keyword("and", Alone), Keyword("asc", Alone), Keyword("as", Alone), Keyword("abs", Call), Keyword("avg", Call)]
    case 'b' => [Keyword("by", Alone)]
    case 'c' => [Keyword("count", Call), Keyword("concat", Alone)]
    case 'd' => [Keyword("desc", Alone), Keyword("delete", Alone), Keyword("distinct", Alone), Keyword("date", Call)]
    case 'f' => [Keyword("from", Alone)]
    case 'g' => [Keyword("group", Alone)]
    case 'i' => [Keyword("isnull", Call), Keyword("is", Alone), Keyword("into", Alone), Keyword("in", Alone), Keyword("insert", Alone)]
    case 'j' => [Keyword("join", Alone)]
    case 'l' => [Keyword("left", Alone), Keyword("lock", Alone), Keyword("like", Alone), Keyword("limit", Alone)]
    case 'm' => [Keyword("max", Call), Keyword("min", Call)]
    case 'n' => [Keyword("not", Alone), Keyword("null", Alone)]
    case 'o' => [Keyword("or", Alone), Keyword("order", Alone), Keyword("outer", Alone)]
    case 'p' => [Keyword("power", Call)]
    case 'r' => [Keyword("round", Call), Keyword("right", ParenAsLetter)]
    case 's' => [Keyword("set", Alone), Keyword("select", Alone), Keyword("substr", Call), Keyword("sum", Call)]
    case 't' => [Keyword("trim", Call)]
    case 'u' => [Keyword("update", Alone), Keyword("union", Alone)]
    case 'v' => [Keyword("values", Alone)]
    case 'w' => [Keyword("where", Alone)]
    case _ => []
  }

  predicate IsAlpha(c: char)
  {
    'a' <= c <= 'z' || 'A' <= c <= 'Z'
  }

  predicate IsWordChar(c: char)
  {
    IsAlpha(c) || IsDigit(c) || c == '_'
  }

  predicate IsSpace(c: char)
  {
    c == ' ' || c == '\t' || c == '\n' || c == '\r' || c == '\U{000B}' || c == '\U{000C}'
  }

  function LowerCase(c: char): char
  {
    if 'A' <= c <= 'Z' then (c as int + 32) as char else c
  }

  /** The character at `i`; a NUL ends the query. */
  function At(query: string, i: nat): char
  {
    if i < |query| then query[i] else '\0'
  }

  // ---------------------------------------------------------------- keywords

  /** The characters from `i` on are the letters of `word`, in either case. */
  predicate Spells(query: string, i: nat, word: string)
  {
    forall k :: 0 <= k < |word| ==> LowerCase(At(query, i + k)) == word[k]
  }

  /** The test of the switch for one keyword. */
  predicate Tested(query: string, i: nat, k: Keyword)
  {
    var next := i + |k.word|;
    match k.form
    case Alone => Spells(query, i, k.word) && (next == |query| || !IsWordChar(At(query, next)))
    case Call => Spells(query, i, k.word) && At(query, next) == '(' && next + 1 != |query|
    case ParenAsLetter =>
      Spells(query, i, k.word) && At(query, next) == '(' && (next + 1 == |query| || !IsWordChar(At(query, next + 1)))
  }

  /** How far the token of a keyword goes. */
  function KeywordLength(k: Keyword): nat
  {
    if k.form == Alone then |k.word| else |k.word| + 1
  }

  /** The first keyword of `table` whose test succeeds; |table| when there is none. */
  function FirstTested(query: string, i: nat, table: seq<Keyword>, from: nat): (k: nat)
    requires from <= |table|
    ensures from <= k <= |table|
    ensures k < |table| ==> Tested(query, i, table[k])
    decreases |table| - from
  {
    if from == |table| || Tested(query, i, table[from]) then from else FirstTested(query, i, table, from + 1)
  }

  /** The end of the identifier that begins at `i`: the longest run of letters, digits and underscores. */
  function RunEnd(query: string, i: nat): (end: nat)
    requires i <= |query|
    ensures i <= end <= |query|
    decreases |query| - i
  {
    if i < |query| && IsWordChar(query[i]) then RunEnd(query, i + 1) else i
  }

  /** A keyword as a table of words gives it: the whole identifier is the word, and a function's parenthesis follows. */
  predicate LookedUp(query: string, i: nat, k: Keyword)
    requires i <= |query|
  {
    var end := RunEnd(query, i);
    && end == i + |k.word| && Spells(query, i, k.word)
    && match k.form
       case Alone => true
       case Call => At(query, end) == '(' && end + 1 < |query|
       case ParenAsLetter => At(query, end) == '(' && !IsWordChar(At(query, end + 1))
  }

  function FirstLookedUp(query: string, i: nat, table: seq<Keyword>, from: nat): (k: nat)
    requires i <= |query| && from <= |table|
    ensures from <= k <= |table|
    decreases |table| - from
  {
    if from == |table| || LookedUp(query, i, table[from]) then from else FirstLookedUp(query, i, table, from + 1)
  }

  predicate LowerWord(word: string)
  {
    forall k :: 0 <= k < |word| ==> 'a' <= word[k] <= 'z'
  }

  lemma {:induction false} RunOfWord(query: string, i: nat, j: nat)
    requires i <= j <= |query| && forall p :: i <= p < j ==> IsWordChar(query[p])
    ensures RunEnd(query, i) == RunEnd(query, j)
    decreases j - i
  {
    if i < j { RunOfWord(query, i + 1, j); }
  }

  lemma SpelledIsRun(query: string, i: nat, word: string)
    requires i <= |query| && LowerWord(word) && Spells(query, i, word)
    ensures i + |word| <= |query| && RunEnd(query, i) == RunEnd(query, i + |word|)
  {
    forall p: nat | i <= p < i + |word| ensures IsWordChar(At(query, p)) {
      assert LowerCase(At(query, i + (p - i))) == word[p - i];
    }
    assert i + |word| > |query| ==> IsWordChar(At(query, |query|));
    forall p | i <= p < i + |word| ensures IsWordChar(query[p]) {
      assert At(query, p) == query[p];
    }
    RunOfWord(query, i, i + |word|);
  }

  lemma TestedIsLookedUp(query: string, i: nat, k: Keyword)
    requires i <= |query| && LowerWord(k.word)
    ensures Tested(query, i, k) <==> LookedUp(query, i, k)
  {
    if Spells(query, i, k.word) { SpelledIsRun(query, i, k.word); }
  }

  /** The nested switch finds the keyword that the longest identifier gives, looked up without regard to case. */
  lemma {:induction false} SwitchIsLookup(query: string, i: nat, table: seq<Keyword>, from: nat)
    requires i <= |query| && from <= |table| && forall k :: from <= k < |table| ==> LowerWord(table[k].word)
    ensures FirstTested(query, i, table, from) == FirstLookedUp(query, i, table, from)
    decreases |table| - from
  {
    if from < |table| {
      TestedIsLookedUp(query, i, table[from]);
      SwitchIsLookup(query, i, table, from + 1);
    }
  }

  // ---------------------------------------------------------------- one token

  function SkipSpaces(query: string, i: nat): (p: nat)
    requires i <= |query|
    ensures i <= p <= |query|
    decreases |query| - i
  {
    if i < |query| && IsSpace(query[i]) then SkipSpaces(query, i + 1) else i
  }

  function DigitsEnd(query: string, i: nat): (p: nat)
    requires i <= |query|
    ensures i <= p <= |query|
    decreases |query| - i
  {
    if i < |query| && IsDigit(query[i]) then DigitsEnd(query, i + 1) else i
  }

  predicate NumberStarts(query: string, p: nat)
    requires p < |query|
  {
    IsDigit(query[p]) || ((query[p] == '-' || query[p] == '.') && IsDigit(At(query, p + 1)))
  }

  /** How far a number goes: an integer up to its last digit; with a point or an exponent, as far as sscanf reads, which is
      `reals` of the rest of the query, 0 when it reads nothing. */
  function NumberToken(query: string, p: nat, reals: string -> nat): (Token, nat)
    requires p < |query|
  {
    var digits := DigitsEnd(query, if query[p] == '-' then p + 1 else p);
    if digits == |query| || (query[digits] != '.' && query[digits] != 'E' && query[digits] != 'e') then (IntegerVal, digits)
    else if reals(query[p..]) == 0 then (ErrorVal, p)
    else (RealVal, p + reals(query[p..]))
  }

  function QuoteEnd(query: string, i: nat): (end: nat)
    requires i <= |query|
    ensures i <= end <= |query|
    ensures end < |query| ==> query[end] == '"'
    decreases |query| - i
  {
    if i < |query| && query[i] != '"' then QuoteEnd(query, i + 1) else i
  }

  /** An exclamation mark that no equals sign follows. */
  predicate LoneBang(query: string, p: nat)
  {
    At(query, p) == '!' && At(query, p + 1) != '='
  }

  /** The token at `p`, which is not a space, and the new queryPtr. */
  function TokenAt(query: string, p: nat, reals: string -> nat): (Token, nat)
    requires p < |query|
  {
    var c, d := query[p], At(query, p + 1);
    if NumberStarts(query, p) then NumberToken(query, p, reals)
    else if c == '\'' then
      var end := L.StringEnd(query, p + 1);
      if end == -1 then (ErrorVal, p) else (StringVal(query[p + 1..end - 1]), end)
    else if c == '"' then
      var end := QuoteEnd(query, p + 1);
      if end == |query| then (ErrorVal, p) else (QuotedIdent(query[p + 1..end]), end + 1)
    else if c == '[' then
      if p + 9 < |query| && query[p + 9] == ']' then (DateVal(query[p + 1..p + 9]), p + 10) else (ErrorVal, p)
    else if c == ':' then (BindVar, p + 1)
    else if c == '+' || c == '-' || c == '/' then (Operator(c), p + 1)
    else if c == '*' then (Asterisk, p + 1)
    else if c == '=' then (Equals, if d == '=' then p + 2 else p + 1)
    else if c == '>' then if d == '=' then (Compare(GreaterOrEqual), p + 2) else (Compare(Greater), p + 1)
    else if c == '<' then
      if d == '=' then (Compare(LowerOrEqual), p + 2)
      else if d == '>' then (Compare(Different), p + 2)
      else (Compare(Relation.Lower), p + 1)
    else if c == '!' then if d == '=' then (Compare(Different), p + 2) else (Not, p)
    else if c == '?' then if d == '?' then (ParamNotNull, p + 2) else (Param, p + 1)
    else if IsAlpha(c) || c == '_' then
      var table := KeywordsOf(LowerCase(c));
      var k := FirstTested(query, p, table, 0);
      if k < |table| then (Reserved(table[k]), p + KeywordLength(table[k]))
      else (Ident(query[p..RunEnd(query, p)]), RunEnd(query, p))
    else (Character(c), p + 1)
  }

  /** One call of the lexer. */
  function Lex(query: string, i: nat, reals: string -> nat): (Token, nat)
    requires i <= |query|
  {
    var p := SkipSpaces(query, i);
    if p == |query| then (Eof, p) else TokenAt(query, p, reals)
  }

  predicate Final(t: Token)
  {
    t == Eof || t == ErrorVal
  }

  /** sscanf reads no further than the text goes. */
  ghost predicate Reads(reals: string -> nat)
  {
    forall s: string :: reals(s) <= |s|
  }

  ghost predicate AreWords(table: seq<Keyword>)
  {
    && (forall k :: 0 <= k < |table| ==> LowerWord(table[k].word) && table[k].word != "")
    && WordsDiffer(table)
  }

  ghost predicate WordsDiffer(table: seq<Keyword>)
  {
    forall j, k :: 0 <= j < k < |table| ==> table[j].word != table[k].word
  }

  lemma WordsToB(first: char)
    requires first < 'c'
    ensures AreWords(KeywordsOf(first))
  {
  }

  lemma WordsToC(first: char)
    requires first == 'c'
    ensures AreWords(KeywordsOf(first))
  {
  }

  lemma WordsToD(first: char)
    requires first == 'd'
    ensures AreWords(KeywordsOf(first))
  {
  }

  lemma WordsToH(first: char)
    requires 'e' <= first < 'i'
    ensures AreWords(KeywordsOf(first))
  {
  }

  lemma WordsToI(first: char)
    requires first == 'i'
    ensures AreWords(KeywordsOf(first))
  {
  }

  lemma WordsToL(first: char)
    requires 'j' <= first < 'm'
    ensures AreWords(KeywordsOf(first))
  {
  }

  lemma WordsToM(first: char)
    requires first == 'm'
    ensures AreWords(KeywordsOf(first))
  {
  }

  lemma WordsToN(first: char)
    requires first == 'n'
    ensures AreWords(KeywordsOf(first))
  {
  }

  lemma WordsToO(first: char)
    requires first == 'o'
    ensures AreWords(KeywordsOf(first))
  {
  }

  lemma WordsToR(first: char)
    requires 'p' <= first < 's'
    ensures AreWords(KeywordsOf(first))
  {
  }

  lemma WordsToS(first: char)
    requires first == 's'
    ensures AreWords(KeywordsOf(first))
  {
  }

  lemma WordsToU(first: char)
    requires 't' <= first < 'v'
    ensures AreWords(KeywordsOf(first))
  {
  }

  lemma WordsToW(first: char)
    requires 'v' <= first
    ensures AreWords(KeywordsOf(first))
  {
  }

  lemma WordsAreLower(first: char)
    ensures AreWords(KeywordsOf(first))
  {
    hide AreWords;
    if first < 'c' {
      WordsToB(first);
    } else if first < 'd' {
      WordsToC(first);
    } else if first < 'e' {
      WordsToD(first);
    } else if first < 'i' {
      WordsToH(first);
    } else if first < 'j' {
      WordsToI(first);
    } else if first < 'm' {
      WordsToL(first);
    } else if first < 'n' {
      WordsToM(first);
    } else if first < 'o' {
      WordsToN(first);
    } else if first < 'p' {
      WordsToO(first);
    } else if first < 's' {
      WordsToR(first);
    } else if first < 't' {
      WordsToS(first);
    } else if first < 'v' {
      WordsToU(first);
    } else {
      WordsToW(first);
    }
  }

  lemma KeywordAdvances(query: string, p: nat, k: Keyword)
    requires p < |query| && LowerWord(k.word) && k.word != "" && Tested(query, p, k)
    ensures p < p + KeywordLength(k) <= |query|
  {
    SpelledIsRun(query, p, k.word);
  }

  /** A token that is neither the end nor an error lies inside of the query, and the position moves past it exactly when
      it is not a lone exclamation mark. */
  lemma TokenAdvancesExactly(query: string, p: nat, reals: string -> nat)
    requires p < |query| && Reads(reals) && !Final(TokenAt(query, p, reals).0)
    ensures p <= TokenAt(query, p, reals).1 <= |query|
    ensures p < TokenAt(query, p, reals).1 <==> !LoneBang(query, p)
  {
    var c := query[p];
    if NumberStarts(query, p) {
      assert |query[p..]| == |query| - p;
      if query[p] == '.' { assert DigitsEnd(query, p) == p; }
    } else if IsAlpha(c) || c == '_' {
      WordsAreLower(LowerCase(c));
      var table := KeywordsOf(LowerCase(c));
      var k := FirstTested(query, p, table, 0);
      if k < |table| { KeywordAdvances(query, p, table[k]); }
    }
  }

  /** The keyword of a token is the one that the identifier gives in the table. */
  lemma KeywordIsLookedUp(query: string, p: nat)
    requires p < |query|
    ensures var table := KeywordsOf(LowerCase(query[p]));
            FirstTested(query, p, table, 0) == FirstLookedUp(query, p, table, 0)
  {
    WordsAreLower(LowerCase(query[p]));
    SwitchIsLookup(query, p, KeywordsOf(LowerCase(query[p])), 0);
  }

  /** RIGHT without a parenthesis after it, as in RIGHT OUTER JOIN, is an identifier for the lexer. */
  lemma RightIsIdentifier(query: string, p: nat, reals: string -> nat)
    requires p < |query| && Spells(query, p, "right") && !IsWordChar(At(query, p + 5)) && At(query, p + 5) != '('
    ensures p + 5 <= |query| && TokenAt(query, p, reals) == (Ident(query[p..p + 5]), p + 5)
  {
    hide LookedUp, Tested, Spells, IsWordChar;
    RightIsNotLookedUp(query, p);
    KeywordIsLookedUp(query, p);
  }

  lemma RightIsNotLookedUp(query: string, p: nat)
    requires p < |query| && Spells(query, p, "right") && !IsWordChar(At(query, p + 5)) && At(query, p + 5) != '('
    ensures p + 5 == RunEnd(query, p) && LowerCase(query[p]) == 'r' && FirstLookedUp(query, p, KeywordsOf('r'), 0) == 2
  {
    hide RunEnd, Spells, IsWordChar, FirstLookedUp;
    RightIsNotRound(query, p);
    RunEndsHere(query, p, "right");
    NoneLookedUp(query, p, Keyword("round", Call), Keyword("right", ParenAsLetter));
  }

  lemma RunEndsHere(query: string, p: nat, word: string)
    requires p <= |query| && LowerWord(word) && Spells(query, p, word) && !IsWordChar(At(query, p + |word|))
    ensures p + |word| == RunEnd(query, p)
  {
    SpelledIsRun(query, p, word);
  }

  lemma RightIsNotRound(query: string, p: nat)
    requires p < |query| && Spells(query, p, "right")
    ensures LowerCase(query[p]) == 'r' && !Spells(query, p, "round")
  {
    assert "right"[0] == 'r' && "right"[1] == 'i' && "round"[1] == 'o';
    assert LowerCase(At(query, p + 0)) == "right"[0] && LowerCase(At(query, p + 1)) == "right"[1];
  }

  lemma NoneLookedUp(query: string, p: nat, j: Keyword, k: Keyword)
    requires p <= |query| && !LookedUp(query, p, j) && !LookedUp(query, p, k)
    ensures FirstLookedUp(query, p, [j, k], 0) == 2
  {
    hide LookedUp;
    assert FirstLookedUp(query, p, [j, k], 2) == 2;
    assert FirstLookedUp(query, p, [j, k], 1) == 2;
  }

  /** At a lone exclamation mark the lexer stays where it is, so it returns NOT there again and again. */
  lemma LoneBangStays(query: string, p: nat, reals: string -> nat)
    requires p < |query| && LoneBang(query, p)
    ensures Lex(query, p, reals) == (Not, p)
  {
  }

  // ---------------------------------------------------------------- which text makes which token

  /** The query goes on with `text` at position `p`. */
  predicate Here(query: string, p: nat, text: string)
  {
    p + |text| <= |query| && query[p..p + |text|] == text
  }

  lemma HereAt(query: string, p: nat, text: string, k: nat)
    requires Here(query, p, text) && k < |text|
    ensures query[p + k] == text[k] == At(query, p + k)
  {
    assert query[p + k] == query[p..p + |text|][k];
  }

  /** Marks of two characters are one token. */
  lemma TwoCharacterMarks(query: string, p: nat, reals: string -> nat)
    requires p < |query|
    ensures Here(query, p, "<=") ==> TokenAt(query, p, reals) == (Compare(LowerOrEqual), p + 2)
    ensures Here(query, p, "<>") ==> TokenAt(query, p, reals) == (Compare(Different), p + 2)
    ensures Here(query, p, "!=") ==> TokenAt(query, p, reals) == (Compare(Different), p + 2)
    ensures Here(query, p, ">=") ==> TokenAt(query, p, reals) == (Compare(GreaterOrEqual), p + 2)
    ensures Here(query, p, "==") ==> TokenAt(query, p, reals) == (Equals, p + 2)
    ensures Here(query, p, "??") ==> TokenAt(query, p, reals) == (ParamNotNull, p + 2)
  {
    if p + 2 <= |query| {
      assert query[p..p + 2][0] == query[p] && query[p..p + 2][1] == query[p + 1];
    }
  }

  /** Marks of one character, when the next one does not belong to them. */
  lemma OneCharacterMarks(query: string, p: nat, reals: string -> nat)
    requires p < |query| && At(query, p + 1) !in "=>?" && !IsDigit(At(query, p + 1))
    ensures query[p] == '<' ==> TokenAt(query, p, reals) == (Compare(Relation.Lower), p + 1)
    ensures query[p] == '>' ==> TokenAt(query, p, reals) == (Compare(Greater), p + 1)
    ensures query[p] == '=' ==> TokenAt(query, p, reals) == (Equals, p + 1)
    ensures query[p] == '?' ==> TokenAt(query, p, reals) == (Param, p + 1)
    ensures query[p] == '*' ==> TokenAt(query, p, reals) == (Asterisk, p + 1)
    ensures query[p] == ':' ==> TokenAt(query, p, reals) == (BindVar, p + 1)
    ensures query[p] in "+-/" ==> TokenAt(query, p, reals) == (Operator(query[p]), p + 1)
    ensures query[p] in "(),;." ==> TokenAt(query, p, reals) == (Character(query[p]), p + 1)
  {
    assert "=>?"[0] == '=' && "=>?"[1] == '>' && "=>?"[2] == '?';
  }

  /** The first quote at or after `i`. */
  lemma {:induction false} QuoteEndIs(query: string, i: nat, end: nat)
    requires i <= end <= |query| && (end < |query| ==> query[end] == '"') && forall k :: i <= k < end ==> query[k] != '"'
    ensures QuoteEnd(query, i) == end
    decreases end - i
  {
    if i < end { QuoteEndIs(query, i + 1, end); }
  }

  /** A quoted name is one token, with the text between the quotes; without a closing quote it is an error. */
  lemma QuotedName(query: string, p: nat, name: string, reals: string -> nat)
    requires '"' !in name
    ensures Here(query, p, ['"'] + name + ['"']) ==> TokenAt(query, p, reals) == (QuotedIdent(name), p + |name| + 2)
    ensures Here(query, p, ['"'] + name) && p + |name| + 1 == |query| ==> TokenAt(query, p, reals) == (ErrorVal, p)
  {
    var open := ['"'] + name;
    if Here(query, p, open + ['"']) || (Here(query, p, open) && p + |open| == |query|) {
      assert Here(query, p, open) by {
        if Here(query, p, open + ['"']) { assert query[p..p + |open|] == (open + ['"'])[..|open|] == open; }
      }
      HereAt(query, p, open, 0);
      forall k | p + 1 <= k < p + |open| ensures query[k] != '"' {
        HereAt(query, p, open, k - p);
        assert query[k] == name[k - p - 1];
      }
      if Here(query, p, open + ['"']) { HereAt(query, p, open + ['"'], |open|); }
      QuoteEndIs(query, p + 1, p + |open|);
      assert query[p + 1..p + |open|] == query[p..p + |open|][1..] == name;
    }
  }

  /** A date is eight characters in brackets, whatever they are. */
  lemma DateToken(query: string, p: nat, date: string, reals: string -> nat)
    requires |date| == 8 && Here(query, p, ['['] + date + [']'])
    ensures TokenAt(query, p, reals) == (DateVal(date), p + 10)
  {
    var text := ['['] + date + [']'];
    HereAt(query, p, text, 0);
    HereAt(query, p, text, 9);
    assert query[p + 1..p + 9] == query[p..p + |text|][1..9] == text[1..9] == date;
  }

  lemma {:induction false} DigitsEndIs(query: string, i: nat, end: nat)
    requires i <= end <= |query| && (forall k :: i <= k < end ==> IsDigit(query[k])) && !IsDigit(At(query, end))
    ensures DigitsEnd(query, i) == end
    decreases end - i
  {
    if i < end { DigitsEndIs(query, i + 1, end); }
  }

  /** An integer, with or without a minus sign, goes to its last digit. */
  lemma IntegerToken(query: string, p: nat, end: nat, reals: string -> nat)
    requires p < end <= |query| && (query[p] == '-' ==> p + 1 < end)
    requires forall k :: p <= k < end ==> IsDigit(query[k]) || (k == p && query[k] == '-')
    requires At(query, end) !in ".Ee" && !IsDigit(At(query, end))
    ensures TokenAt(query, p, reals) == (IntegerVal, end)
  {
    assert ".Ee"[0] == '.' && ".Ee"[1] == 'E' && ".Ee"[2] == 'e';
    DigitsEndIs(query, if query[p] == '-' then p + 1 else p, end);
  }

  lemma {:induction false} RunEndIs(query: string, i: nat, end: nat)
    requires i <= end <= |query| && (forall k :: i <= k < end ==> IsWordChar(query[k])) && !IsWordChar(At(query, end))
    ensures RunEnd(query, i) == end
    decreases end - i
  {
    if i < end { RunEndIs(query, i + 1, end); }
  }

  lemma SameSpelling(query: string, i: nat, v: string, w: string)
    requires |v| == |w| && Spells(query, i, v) && Spells(query, i, w)
    ensures v == w
  {
    forall k | 0 <= k < |v| ensures v[k] == w[k] {
      assert LowerCase(At(query, i + k)) == v[k];
    }
  }

  lemma {:induction false} FirstIsOnly(query: string, i: nat, table: seq<Keyword>, from: nat, k: nat)
    requires i <= |query| && WordsDiffer(table) && from <= k < |table| && LookedUp(query, i, table[k])
    ensures FirstLookedUp(query, i, table, from) == k
    decreases k - from
  {
    hide Spells;
    if from < k {
      if LookedUp(query, i, table[from]) { SameSpelling(query, i, table[from].word, table[k].word); }
      FirstIsOnly(query, i, table, from + 1, k);
    }
  }

  lemma {:induction false} NoneIsFirst(query: string, i: nat, table: seq<Keyword>, from: nat)
    requires i <= |query| && from <= |table| && forall k :: from <= k < |table| ==> !LookedUp(query, i, table[k])
    ensures FirstLookedUp(query, i, table, from) == |table|
    decreases |table| - from
  {
    hide LookedUp;
    if from < |table| { NoneIsFirst(query, i, table, from + 1); }
  }

  /** A keyword of the table under its first letter, alone or with its parenthesis, is that keyword's token. */
  lemma KeywordToken(query: string, p: nat, k: nat, reals: string -> nat)
    requires p < |query| && IsAlpha(query[p])
    requires var table := KeywordsOf(LowerCase(query[p])); k < |table| && LookedUp(query, p, table[k])
    ensures var word := KeywordsOf(LowerCase(query[p]))[k];
            TokenAt(query, p, reals) == (Reserved(word), p + KeywordLength(word))
  {
    hide LookedUp, Spells, Tested;
    WordsAreLower(LowerCase(query[p]));
    KeywordIsLookedUp(query, p);
    FirstIsOnly(query, p, KeywordsOf(LowerCase(query[p])), 0, k);
  }

  /** Any other word is an identifier, up to its last letter, digit or underscore. */
  lemma IdentToken(query: string, p: nat, end: nat, reals: string -> nat)
    requires p < end <= |query| && (IsAlpha(query[p]) || query[p] == '_')
    requires (forall k :: p <= k < end ==> IsWordChar(query[k])) && !IsWordChar(At(query, end))
    requires var table := KeywordsOf(LowerCase(query[p])); forall k :: 0 <= k < |table| ==> !LookedUp(query, p, table[k])
    ensures TokenAt(query, p, reals) == (Ident(query[p..end]), end)
  {
    hide LookedUp, Spells, Tested;
    RunEndIs(query, p, end);
    KeywordIsLookedUp(query, p);
    NoneIsFirst(query, p, KeywordsOf(LowerCase(query[p])), 0);
  }

  lemma {:induction false} SpacesSkipped(query: string, i: nat, p: nat)
    requires i <= p <= |query| && (forall k :: i <= k < p ==> IsSpace(query[k])) && !IsSpace(At(query, p))
    ensures SkipSpaces(query, i) == p
    decreases p - i
  {
    if i < p { SpacesSkipped(query, i + 1, p); }
  }

  /** Blanks before a token are passed over. */
  lemma SpacesBefore(query: string, i: nat, p: nat, reals: string -> nat)
    requires i <= p < |query| && (forall k :: i <= k < p ==> IsSpace(query[k])) && !IsSpace(query[p])
    ensures Lex(query, i, reals) == TokenAt(query, p, reals)
  {
    SpacesSkipped(query, i, p);
  }

  // ---------------------------------------------------------------- the lexer's loops

  method ScanSpaces(query: string, i: nat) returns (p: nat)
    requires i <= |query|
    ensures p == SkipSpaces(query, i)
  {
    p := i;
    while p < |query| && IsSpace(query[p])
      invariant i <= p <= |query| && SkipSpaces(query, p) == SkipSpaces(query, i)
    {
      p := p + 1;
    }
  }

  method ScanNumber(query: string, p: nat, reals: string -> nat) returns (token: Token, next: nat)
    requires p < |query| && NumberStarts(query, p)
    ensures (token, next) == NumberToken(query, p, reals)
  {
    var start := if query[p] == '-' then p + 1 else p;
    var q := start;
    while q < |query| && IsDigit(query[q])
      invariant start <= q <= |query| && DigitsEnd(query, q) == DigitsEnd(query, start)
    {
      q := q + 1;
    }
    if q == |query| || (query[q] != '.' && query[q] != 'E' && query[q] != 'e') {
      return IntegerVal, q;
    }
    var n := reals(query[p..]);
    if n == 0 {
      return ErrorVal, p;
    }
    return RealVal, p + n;
  }

  method ScanQuoted(query: string, p: nat) returns (token: Token, next: nat)
    requires p < |query|
    ensures (token, next) == if QuoteEnd(query, p + 1) == |query| then (ErrorVal, p)
                             else (QuotedIdent(query[p + 1..QuoteEnd(query, p + 1)]), QuoteEnd(query, p + 1) + 1)
  {
    var q := p + 1;
    while q < |query|
      invariant p + 1 <= q <= |query| && QuoteEnd(query, q) == QuoteEnd(query, p + 1)
    {
      if query[q] == '"' {
        return QuotedIdent(query[p + 1..q]), q + 1;
      }
      q := q + 1;
    }
    return ErrorVal, p;
  }

  method ScanWord(query: string, p: nat) returns (token: Token, next: nat)
    requires p < |query|
    ensures var table := KeywordsOf(LowerCase(query[p]));
            var k := FirstTested(query, p, table, 0);
            (token, next) == if k < |table| then (Reserved(table[k]), p + KeywordLength(table[k]))
                             else (Ident(query[p..RunEnd(query, p)]), RunEnd(query, p))
  {
    hide KeywordsOf, Spells;
    var table, k := KeywordsOf(LowerCase(query[p])), 0;
    while k < |table|
      invariant k <= |table| && FirstTested(query, p, table, k) == FirstTested(query, p, table, 0)
    {
      if Tested(query, p, table[k]) {
        return Reserved(table[k]), p + KeywordLength(table[k]);
      }
      k := k + 1;
    }
    var q := p;
    while q < |query| && IsWordChar(query[q])
      invariant p <= q <= |query| && RunEnd(query, q) == RunEnd(query, p)
    {
      q := q + 1;
    }
    return Ident(query[p..q]), q;
  }

  /** Dates, bind variables, operators and other single characters. */
  method ScanMark(query: string, p: nat, ghost reals: string -> nat) returns (token: Token, next: nat)
    requires p < |query| && !NumberStarts(query, p) && query[p] != '\'' && query[p] != '"'
    requires !IsAlpha(query[p]) && query[p] != '_'
    ensures (token, next) == TokenAt(query, p, reals)
  {
    var c := query[p];
    next := p + 1;
    if c == '[' {
      if p + 9 < |query| && query[p + 9] == ']' {
        return DateVal(query[p + 1..p + 9]), p + 10;
      }
      return ErrorVal, p;
    } else if c == ':' {
      token := BindVar;
    } else if c == '+' || c == '-' || c == '/' {
      token := Operator(c);
    } else if c == '*' {
      token := Asterisk;
    } else if c == '=' {
      token := Equals;
      if next < |query| {
        if query[next] == '=' {
          next := next + 1;
        }
      }
    } else if c == '>' {
      if next < |query| && query[next] == '=' {
        return Compare(GreaterOrEqual), next + 1;
      }
      token := Compare(Greater);
    } else if c == '<' {
      if next < |query| && query[next] == '=' {
        return Compare(LowerOrEqual), next + 1;
      }
      if next < |query| && query[next] == '>' {
        return Compare(Different), next + 1;
      }
      token := Compare(Relation.Lower);
    } else if c == '!' {
      if next < |query| && query[next] == '=' {
        return Compare(Different), next + 1;
      }
      return Not, p;
    } else if c == '?' {
      token := Param;
      if next < |query| && query[next] == '?' {
        return ParamNotNull, next + 1;
      }
    } else {
      token := Character(c);
    }
  }

  method NextToken(query: string, queryPtr: nat, reals: string -> nat) returns (token: Token, next: nat)
    requires queryPtr <= |query|
    ensures (token, next) == Lex(query, queryPtr, reals)
  {
    hide KeywordsOf, FirstTested, RunEnd;
    var p := ScanSpaces(query, queryPtr);
    if p == |query| {
      return Eof, p;
    }
    var c := query[p];
    if NumberStarts(query, p) {
      token, next := ScanNumber(query, p, reals);
    } else if c == '\'' {
      var t, end := L.ScanString(query, p);
      token := match t case StringVal(value) => StringVal(value) case ErrorVal => ErrorVal;
      next := end;
    } else if c == '"' {
      token, next := ScanQuoted(query, p);
    } else if IsAlpha(c) || c == '_' {
      token, next := ScanWord(query, p);
    } else {
      token, next := ScanMark(query, p, reals);
    }
  }

  // ---------------------------------------------------------------- all tokens

  /** From position `i` on the lexer comes to a lone exclamation mark, where a token would begin, and stays there. */
  ghost predicate Stalls(query: string, i: nat, reals: string -> nat)
    requires i <= |query| && Reads(reals)
    decreases |query| - i
  {
    var p := SkipSpaces(query, i);
    && p < |query| && !Final(TokenAt(query, p, reals).0)
    && (LoneBang(query, p) ||
        (TokenAdvancesExactly(query, p, reals);
         Stalls(query, TokenAt(query, p, reals).1, reals)))
  }

  /** The tokens from position `i` on. */
  ghost function TokensFrom(query: string, i: nat, reals: string -> nat): (tokens: seq<Token>)
    requires i <= |query| && Reads(reals) && !Stalls(query, i, reals)
    ensures |tokens| <= |query| - i
    decreases |query| - i
  {
    var p := SkipSpaces(query, i);
    if p == |query| || Final(TokenAt(query, p, reals).0) then []
    else
      TokenAdvancesExactly(query, p, reals);
      [TokenAt(query, p, reals).0] + TokensFrom(query, TokenAt(query, p, reals).1, reals)
  }

  /** All tokens of a query that does not stall: they are no more than its characters. */
  method Tokenize(query: string, reals: string -> nat) returns (tokens: seq<Token>)
    requires Reads(reals) && !Stalls(query, 0, reals)
    ensures tokens == TokensFrom(query, 0, reals) && |tokens| <= |query|
  {
    tokens := [];
    var queryPtr := 0;
    while true
      invariant queryPtr <= |query| && !Stalls(query, queryPtr, reals)
      invariant tokens + TokensFrom(query, queryPtr, reals) == TokensFrom(query, 0, reals)
      decreases |query| - queryPtr
    {
      var token, next := NextToken(query, queryPtr, reals);
      if Final(token) {
        return;
      }
      TokenAdvancesExactly(query, SkipSpaces(query, queryPtr), reals);
      tokens := tokens + [token];
      queryPtr := next;
    }
  }
}
