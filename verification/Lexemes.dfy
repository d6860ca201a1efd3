/** What the lexer makes of each kind of text, character by character (db/sql/Lexer.cpp:10-274). */
module LexemesMean {
  import opened Options
  import opened Tokens
  import opened Grammar
  import opened Lexing
  import opened Printing
  import opened ParsedMeanings

  lemma FirstThenRest(s: string, rest: string)
    requires s != "" && First(s).size <= |s| && s[First(s).size..] == rest
    ensures Lex(s) == (if First(s).token.Some? then [First(s).token.value] else []) + Lex(rest)
  {
    hide First;
  }

  /** Nothing but the end is in an empty text; white space separates tokens and is none. */
  lemma SpaceIsSkipped(c: char, rest: string)
    requires c == ' ' || 9 <= c as int <= 13
    ensures Lex("") == [Token(Eof, "EOF")] && Lex([c] + rest) == Lex(rest)
  {
    hide WordToken, NumberLexeme, FirstOther, CommentSize, SymbolOf;
    var all := [c] + rest;
    assert all[0] == c && all[1..] == rest;
    var n := Run(rest, IsSpace);
    assert Run(all, IsSpace) == 1 + n;
    assert all[1 + n..] == rest[n..];
    if rest == "" || !IsSpace(rest[0]) {
      assert rest[0..] == rest;
    } else {
      assert First(rest) == Lexeme(None, n);
    }
  }

  /** The tokens of one character. */
  lemma SymbolIsRead(c: char, k: Kind, rest: string)
    requires (c, k) in {('*', Asterisk), (',', Comma), ('(', ParenOpen), (')', ParenClose), (';', Semicolon),
                        ('+', OpAdd), ('/', OpDiv), ('=', OpEqual), ('<', OpLess), ('>', OpGreater)}
    ensures Lex([c] + rest) == [Token(k, [c])] + Lex(rest)
  {
    hide Lex;
    LexSymbol(c, rest);
  }

  /** A minus sign; two of them and a space are a comment up to the end of the line. */
  lemma DashIsRead(line: string, rest: string)
    ensures (|rest| < 2 || rest[0] != '-' || rest[1] != ' ') ==> Lex("-" + rest) == [Token(OpSub, "-")] + Lex(rest)
    ensures '\n' !in line ==> Lex("-- " + line + "\n" + rest) == Lex(rest) && Lex("-- " + line) == Lex("")
  {
    hide Lex, First;
    var all := "-" + rest;
    assert all[1..] == rest;
    FirstDash(all);
    if !IsComment(all) {
      FirstThenRest(all, rest);
    }
    if '\n' !in line {
      CommentEnds(line, rest);
      CommentAtEnd(line);
    }
  }

  lemma FirstDash(s: string)
    requires s != "" && s[0] == '-'
    ensures First(s) == if IsComment(s) then Lexeme(None, CommentSize(s)) else Lexeme(Some(Token(OpSub, "-")), 1)
    ensures IsComment(s) <==> |s| >= 3 && s[1] == '-' && s[2] == ' '
  {
    hide CommentSize;
  }

  lemma CommentEnds(line: string, rest: string)
    requires '\n' !in line
    ensures Lex("-- " + line + "\n" + rest) == Lex(rest)
  {
    hide Lex, First;
    var all := "-- " + line + "\n" + rest;
    assert all == ("-- " + line) + ['\n'] + rest && all[1] == '-' && all[2] == ' ';
    assert '\n' !in "-- " + line;
    RunUntil("-- " + line, '\n', rest);
    FirstDash(all);
    assert all[CommentSize(all)..] == rest;
    FirstThenRest(all, rest);
  }

  lemma CommentAtEnd(line: string)
    requires '\n' !in line
    ensures Lex("-- " + line) == Lex("")
  {
    hide Lex, First;
    var all := "-- " + line;
    assert all[1] == '-' && all[2] == ' ';
    RunNever(all, '\n');
    FirstDash(all);
    assert all[CommentSize(all)..] == "";
    FirstThenRest(all, "");
  }

  lemma {:induction false} RunNever(s: string, close: char)
    requires close !in s
    ensures Run(s, Except(close)) == |s|
  {
    if s != "" {
      RunNever(s[1..], close);
    }
  }

  /** Unequal is spelled `!=`. */
  lemma ExclamationIsRead(rest: string)
    ensures Lex("!=" + rest) == [Token(OpNotEqual, "!=")] + Lex(rest)
    ensures (rest == "" || rest[0] != '=') ==> Lex("!" + rest) == [Token(Exclamation, "!")] + Lex(rest)
  {
    hide Lex;
    var a, b := "!=" + rest, "!" + rest;
    assert a[1] == '=' && a[2..] == rest && b[1..] == rest;
    FirstThenRest(a, rest);
    if rest == "" || rest[0] != '=' {
      FirstThenRest(b, rest);
    }
  }

  /** A text in quotes is a string; without the second quote it is all the rest and the mark of the end. */
  lemma StringIsRead(s: string, rest: string)
    requires '\'' !in s
    ensures Lex("'" + s + "'" + rest) == [Token(String, s)] + Lex(rest)
    ensures Lex("'" + s) == [Token(String, s + [255 as char]), Token(Eof, "EOF")]
  {
    hide Lex, First;
    LexString(s, rest);
    OpenString(s);
    SpaceIsSkipped(' ', "");
    FirstThenRest("'" + s, "");
  }

  lemma OpenString(s: string)
    requires '\'' !in s
    ensures First("'" + s) == Lexeme(Some(Token(String, s + [255 as char])), |s| + 1)
  {
    hide WordToken, NumberLexeme, SymbolOf, CommentSize, DelimitedTrimmed;
    var open := "'" + s;
    assert open[0] == '\'' && open[1..] == s;
    NoSymbol();
    RunNever(s, '\'');
  }

  // ---- Numbers ----

  /** Digits. */
  predicate AllDigits(s: string) {
    forall i | 0 <= i < |s| :: '0' <= s[i] <= '9'
  }

  lemma {:induction false} DigitsThen(s: string, rest: string, decimal: bool)
    requires AllDigits(s)
    ensures NumberRun(s + rest, decimal) == |s| + NumberRun(rest, decimal)
  {
    if s == "" {
      assert s + rest == rest;
    } else {
      DigitsThen(s[1..], rest, decimal);
      assert (s + rest)[1..] == s[1..] + rest;
    }
  }

  lemma FirstNumber(s: string)
    requires s != "" && ('0' <= s[0] <= '9' || s[0] == '.')
    ensures First(s) == NumberLexeme(s)
  {
    hide NumberLexeme;
  }

  lemma IntLexeme(s: string, rest: string)
    requires s != "" && AllDigits(s) && (rest == "" || !('0' <= rest[0] <= '9' || rest[0] == '.'))
    ensures NumberLexeme(s + rest) == Lexeme(Some(Token(Int, s)), |s|)
  {
    DigitsThen(s, rest, false);
    assert (s + rest)[..|s|] == s;
    assert s[0] != '.';
  }

  /** The number with a point, whatever follows. */
  lemma PointRun(s: string, t: string, rest: string)
    requires AllDigits(s) && AllDigits(t) && (rest == "" || !('0' <= rest[0] <= '9'))
    ensures NumberRun(s + "." + t + rest, false) == |s + "." + t|
  {
    hide AllDigits, NumberRun;
    DigitsThen(s, "." + (t + rest), false);
    DigitsThen(t, rest, true);
    OnePoint(t + rest, rest);
    assert s + ("." + (t + rest)) == s + "." + t + rest;
  }

  lemma OnePoint(behind: string, rest: string)
    ensures NumberRun("." + behind, false) == 1 + NumberRun(behind, true)
    ensures (rest == "" || !('0' <= rest[0] <= '9')) ==> NumberRun(rest, true) == 0
  {
    assert ("." + behind)[1..] == behind;
  }

  lemma FloatLexeme(s: string, t: string, rest: string)
    requires AllDigits(s) && AllDigits(t) && s + t != "" && (rest == "" || !('0' <= rest[0] <= '9'))
    ensures NumberLexeme(s + "." + t + rest) ==
            Lexeme(Some(Token(Float, s + "." + t)),
                   if rest != "" && rest[0] == '.' then |s + "." + t| + 1 else |s + "." + t|)
  {
    hide NumberRun, AllDigits;
    PointRun(s, t, rest);
    var number := s + "." + t;
    assert (number + rest)[..|number|] == number && number[|s|] == '.';
  }

  lemma PeriodLexeme(rest: string)
    requires rest == "" || !('0' <= rest[0] <= '9' || rest[0] == '.')
    ensures NumberLexeme("." + rest) == Lexeme(Some(Token(Period, ".")), 1)
  {
    hide NumberRun;
    PointRun("", "", rest);
    assert "" + "." + "" + rest == "." + rest && "" + "." + "" == ".";
    assert ("." + rest)[..1] == ".";
  }

  /** Digits are an integer, with one point among them a float; a point alone is a period. */
  lemma NumberIsRead(s: string, t: string, rest: string)
    requires AllDigits(s) && AllDigits(t) && (rest == "" || !('0' <= rest[0] <= '9' || rest[0] == '.'))
    ensures s != "" ==> Lex(s + rest) == [Token(Int, s)] + Lex(rest)
    ensures s + t != "" ==> Lex(s + "." + t + rest) == [Token(Float, s + "." + t)] + Lex(rest)
    ensures Lex("." + rest) == [Token(Period, ".")] + Lex(rest)
  {
    hide Lex, First, NumberLexeme;
    if s != "" {
      IntLexeme(s, rest);
      FirstNumber(s + rest);
      assert (s + rest)[|s|..] == rest;
      FirstThenRest(s + rest, rest);
    }
    if s + t != "" {
      FloatIsRead(s, t, rest);
    }
    PeriodLexeme(rest);
    FirstNumber("." + rest);
    assert ("." + rest)[1..] == rest;
    FirstThenRest("." + rest, rest);
  }

  lemma FloatIsRead(s: string, t: string, rest: string)
    requires AllDigits(s) && AllDigits(t) && s + t != "" && (rest == "" || !('0' <= rest[0] <= '9' || rest[0] == '.'))
    ensures Lex(s + "." + t + rest) == [Token(Float, s + "." + t)] + Lex(rest)
  {
    hide Lex, First, NumberLexeme;
    var all := s + "." + t + rest;
    FloatLexeme(s, t, rest);
    assert all[0] == if s == "" then '.' else s[0];
    FirstNumber(all);
    assert all[|s + "." + t|..] == rest;
    FirstThenRest(all, rest);
  }

  /** A second point ends the number and is swallowed. */
  lemma SecondPointIsLost(s: string, t: string, rest: string)
    requires AllDigits(s) && AllDigits(t) && s + t != ""
    ensures Lex(s + "." + t + "." + rest) == [Token(Float, s + "." + t)] + Lex(rest)
  {
    hide Lex, First, NumberLexeme;
    var all := s + "." + t + ("." + rest);
    FloatLexeme(s, t, "." + rest);
    assert all[0] == if s == "" then '.' else s[0];
    FirstNumber(all);
    assert all[|s + "." + t| + 1..] == rest && all == s + "." + t + "." + rest;
    FirstThenRest(all, rest);
  }

  // ---- Dates and names in brackets ----

  predicate White(c: char) {
    c == ' ' || 9 <= c as int <= 13
  }

  predicate Blank(s: string) {
    forall i | 0 <= i < |s| :: White(s[i])
  }

  /** A text between hash signs is a date, without the white space in front of it. */
  lemma DateIsRead(w: string, s: string, rest: string)
    requires Blank(w) && '#' !in s && (s == "" || !White(s[0]))
    ensures Lex("#" + w + s + "#" + rest) == [Token(Date, s)] + Lex(rest)
  {
    hide Lex, First, Blank, DelimitedTrimmed;
    var all := "#" + w + s + "#" + rest;
    Trimmed(Date, w, s, '#', rest);
    assert all[1..] == w + s + ['#'] + rest;
    FirstDelimited(all);
    assert all[|w| + |s| + 2..] == rest;
    FirstThenRest(all, rest);
  }

  /** A text in brackets is a name, without the white space around it. */
  lemma BracketIsRead(w: string, s: string, v: string, rest: string)
    requires Blank(w) && Blank(v) && ']' !in s && s != "" && !White(s[0]) && !White(s[|s| - 1])
    ensures Lex("[" + w + s + v + "]" + rest) == [Token(Identifier, s)] + Lex(rest)
  {
    hide Lex, First, Blank, DelimitedTrimmed, TrimEnd;
    var all := "[" + w + s + v + "]" + rest;
    NotInBlank(v, ']');
    assert (s + v)[0] == s[0];
    Trimmed(Identifier, w, s + v, ']', rest);
    TrimBlank(s, v);
    assert all[1..] == w + (s + v) + [']'] + rest;
    FirstDelimited(all);
    assert all[|w| + |s + v| + 2..] == rest;
    FirstThenRest(all, rest);
  }

  lemma NotInBlank(s: string, c: char)
    requires Blank(s) && !White(c)
    ensures c !in s
  {
  }

  lemma FirstDelimited(s: string)
    requires s != "" && (s[0] == '#' || s[0] == '[')
    ensures s[0] == '#' ==>
              var l := DelimitedTrimmed(Date, s[1..], '#'); First(s) == Lexeme(l.token, l.size + 1)
    ensures s[0] == '[' ==>
              var l := DelimitedTrimmed(Identifier, s[1..], ']');
              First(s) == Lexeme(Some(Token(Identifier, TrimEnd(l.token.value.value))), l.size + 1)
  {
    hide WordToken, NumberLexeme, CommentSize, DelimitedTrimmed, TrimEnd;
    NoBracketSymbol();
  }

  lemma NoBracketSymbol()
    ensures SymbolOf('[').None? && SymbolOf('#').None?
  {
  }

  lemma Trimmed(kind: Kind, w: string, s: string, close: char, rest: string)
    requires Blank(w) && close !in s && !White(close) && (s == "" || !White(s[0]))
    ensures DelimitedTrimmed(kind, w + s + [close] + rest, close) == Lexeme(Some(Token(kind, s)), |w| + |s| + 1)
  {
    var all := w + s + [close] + rest;
    RunStep(all, IsSpace, |w|);
    var body := s + [close] + rest;
    assert all[|w|..] == body;
    assert body[0] == if s == "" then close else s[0];
    RunUntil(s, close, rest);
    assert body[..|s|] == s;
  }

  lemma {:induction false} TrimBlank(s: string, v: string)
    requires Blank(v) && (s == "" || !White(s[|s| - 1]))
    ensures TrimEnd(s + v) == s
    decreases |v|
  {
    if v == "" {
      assert s + v == s;
    } else {
      TrimBlank(s, v[..|v| - 1]);
      assert (s + v)[..|s + v| - 1] == s + v[..|v| - 1];
    }
  }

  /** Any other character is garbage. */
  lemma GarbageIsRead(c: char, rest: string)
    requires !('a' <= c <= 'z' || 'A' <= c <= 'Z' || '0' <= c <= '9' || 9 <= c as int <= 13)
    requires c !in "_ .-*,()[];+/=<>!'#"
    ensures Lex([c] + rest) == [Token(Garbage, [c])] + Lex(rest)
  {
    hide Lex, First;
    var all := [c] + rest;
    assert all[1..] == rest && all[..1] == [c];
    FirstGarbage(c, all);
    FirstThenRest(all, rest);
  }

  lemma FirstGarbage(c: char, s: string)
    requires s != "" && s[0] == c
    requires !('a' <= c <= 'z' || 'A' <= c <= 'Z' || '0' <= c <= '9' || 9 <= c as int <= 13)
    requires c !in "_ .-*,()[];+/=<>!'#"
    ensures First(s) == Lexeme(Some(Token(Garbage, s[..1])), 1)
  {
    hide WordToken, NumberLexeme, CommentSize, DelimitedTrimmed, TrimEnd, Delimited;
  }

  // ---- Words ----

  /** The keywords of expressions, and the others. */
  const KEYWORDS: set<(string, Kind)> := {
    ("AND", KeywordAnd), ("BETWEEN", KeywordBetween), ("BY", KeywordBy), ("CASE", KeywordCase), ("ELSE", KeywordElse),
    ("END", KeywordEnd), ("IN", KeywordIn), ("IS", KeywordIs), ("LIKE", KeywordLike), ("MATCH", KeywordMatch),
    ("NOT", KeywordNot), ("NULL", KeywordNull), ("OR", KeywordOr), ("OVER", KeywordOver),
    ("PARTITION", KeywordPartition), ("SELECT", KeywordSelect), ("THEN", KeywordThen), ("WHEN", KeywordWhen)
  }

  const OTHER_KEYWORDS: set<string> := {
    "ADD", "ALL", "ALTER", "AS", "CHECK", "COLUMN", "CONSTRAINT", "CREATE", "DEFAULT", "DELETE", "DISTINCT", "DROP",
    "ENGINE", "EXISTS", "FROM", "FOREIGN", "FULL", "GROUP", "HAVING", "IMPORT", "IF", "INNER", "INSERT", "INTO",
    "JOIN", "KEY", "ON", "ORDER", "OUTER", "PRIMARY", "PRINT", "REFERENCES", "SET", "SHOW", "TABLE", "TABLES", "TOP",
    "TRUNCATE", "UNION", "UNIQUE", "UPDATE", "VALUES", "WHERE"
  }

  predicate WordCharacter(c: char) {
    'a' <= c <= 'z' || 'A' <= c <= 'Z' || '0' <= c <= '9' || c == '_'
  }

  /** Letters, digits and underscores that do not begin with a digit, with nothing of the kind behind them. */
  predicate StandsAlone(word: string, rest: string) {
    && word != "" && !('0' <= word[0] <= '9') && (forall i | 0 <= i < |word| :: WordCharacter(word[i]))
    && (rest == "" || !WordCharacter(rest[0]))
  }

  lemma {:induction false} WholeWord(word: string, rest: string)
    requires (forall i | 0 <= i < |word| :: WordCharacter(word[i])) && (rest == "" || !WordCharacter(rest[0]))
    ensures Run(word + rest, IsWordChar) == |word|
  {
    if word == "" {
      assert word + rest == rest;
    } else {
      WholeWord(word[1..], rest);
      assert (word + rest)[1..] == word[1..] + rest;
    }
  }

  lemma WordIsRead(word: string, rest: string)
    requires StandsAlone(word, rest)
    ensures Lex(word + rest) == [WordToken(word)] + Lex(rest)
  {
    hide Lex, WordToken, NumberLexeme, FirstOther, SymbolOf, CommentSize;
    var all := word + rest;
    WholeWord(word, rest);
    assert all[0] == word[0] && WordCharacter(all[0]) && all[..|word|] == word && all[|word|..] == rest;
    FirstThenRest(all, rest);
  }

  lemma Uppercase(word: string, name: string)
    requires forall i | 0 <= i < |name| :: 'A' <= name[i] <= 'Z'
    ensures Upper(word) == name <==> IsWord(word, name)
  {
    if IsWord(word, name) {
      forall i | 0 <= i < |word| ensures Upper(word)[i] == name[i] {
      }
    } else if Upper(word) == name {
      forall i | 0 <= i < |word| ensures word[i] == name[i] || word[i] as int == name[i] as int + 32 {
        assert Upper(word)[i] == name[i];
      }
    }
  }

  lemma KeywordTable(name: string, k: Kind)
    requires (name, k) in KEYWORDS
    ensures KeywordOf(name) == Some(k) && forall i | 0 <= i < |name| :: 'A' <= name[i] <= 'Z'
  {
  }

  lemma OtherTable(name: string)
    requires name in OTHER_KEYWORDS
    ensures KeywordOf(name) == Some(OtherKeyword(name))
  {
  }

  lemma OtherCapitals(name: string)
    requires name in OTHER_KEYWORDS
    ensures forall i | 0 <= i < |name| :: 'A' <= name[i] <= 'Z'
  {
  }

  lemma NoOthers(u: string)
    requires KeywordOf(u).Some?
    ensures (u, KeywordOf(u).value) in KEYWORDS || u in OTHER_KEYWORDS
  {
  }

  /** A keyword is the token of its name, whatever the case of its letters; so are TRUE and FALSE. */
  lemma KeywordIsRead(word: string, name: string, k: Kind, rest: string)
    requires StandsAlone(word, rest) && IsWord(word, name)
    requires (name, k) in KEYWORDS || (name in OTHER_KEYWORDS && k == OtherKeyword(name))
             || ((name == "TRUE" || name == "FALSE") && k == Kind.Bool)
    ensures Lex(word + rest) == [Token(k, name)] + Lex(rest)
  {
    hide Lex, KeywordOf, Upper, IsWord, StandsAlone, KEYWORDS, OTHER_KEYWORDS;
    WordIsRead(word, rest);
    if (name, k) in KEYWORDS {
      KeywordTable(name, k);
    } else if name in OTHER_KEYWORDS {
      OtherTable(name);
      OtherCapitals(name);
    }
    NoKeywords();
    Uppercase(word, name);
  }

  /** Any other word is a name, but ASC and DESC. */
  lemma NameIsRead(word: string, rest: string)
    requires StandsAlone(word, rest) && !IsWord(word, "TRUE") && !IsWord(word, "FALSE")
    requires forall name, k | (name, k) in KEYWORDS :: !IsWord(word, name)
    requires forall name | name in OTHER_KEYWORDS :: !IsWord(word, name)
    ensures Lex(word + rest) ==
            [Token(if IsWord(word, "ASC") || IsWord(word, "DESC") then OrderByParam else Identifier, word)] + Lex(rest)
  {
    hide Lex, KeywordOf, Upper, IsWord, StandsAlone, KEYWORDS, OTHER_KEYWORDS;
    WordIsRead(word, rest);
    var u := Upper(word);
    if KeywordOf(u).Some? {
      NoOthers(u);
      if u in OTHER_KEYWORDS {
        OtherCapitals(u);
      } else {
        KeywordTable(u, KeywordOf(u).value);
      }
      Uppercase(word, u);
      assert false;
    }
    Uppercase(word, "TRUE");
    Uppercase(word, "FALSE");
    Uppercase(word, "ASC");
    Uppercase(word, "DESC");
  }

  // ---- What the texts of literals stand for ----

  /** Decimal digits, the most significant first. */
  lemma NumbersMean(s: string, c: char)
    requires AllDigits(s) && '0' <= c <= '9'
    ensures IsDigits(s) && IsDigits(s + [c])
    ensures Number("") == 0 && Number(s + [c]) == 10 * Number(s) + (c as int - '0' as int)
  {
    assert (s + [c])[..|s|] == s;
  }

  lemma {:induction false} NumberBelow(s: string)
    requires IsDigits(s)
    ensures |s| <= 1 ==> Number(s) < 10
    ensures |s| <= 2 ==> Number(s) < 100
    ensures |s| <= 3 ==> Number(s) < 1000
    ensures |s| <= 4 ==> Number(s) < 10000
  {
    if s != "" {
      NumberBelow(s[..|s| - 1]);
    }
  }

  /** A date with a time of day: a year of four digits, a month and a day of two, with minus signs between them, a
      blank, and an hour of one or two digits, minutes and seconds of two, with colons between them. */
  lemma TimesMean(s: string, k: nat)
    requires 1 <= k <= 2 && |s| == 17 + k
    requires s[4] == s[7] == '-' && s[10] == ' ' && s[11 + k] == s[14 + k] == ':'
    requires IsDigits(s[0..4]) && IsDigits(s[5..7]) && IsDigits(s[8..10])
    requires IsDigits(s[11..11 + k]) && IsDigits(s[12 + k..14 + k]) && IsDigits(s[15 + k..17 + k])
    ensures IsDate(s) <==>
            && 1 <= Number(s[5..7]) <= 12 && 1 <= Number(s[8..10]) <= 31 && Number(s[11..11 + k]) <= 23
            && Number(s[12 + k..14 + k]) <= 59 && Number(s[15 + k..17 + k]) <= 59
  {
    hide Number, IsDigits;
    NumberBelow(s[0..4]);
  }

  /** A date alone. */
  lemma DatesMean(s: string)
    requires |s| == 10 && s[4] == s[7] == '-'
    requires IsDigits(s[0..4]) && IsDigits(s[5..7]) && IsDigits(s[8..10])
    ensures IsDate(s) <==> 1 <= Number(s[5..7]) <= 12 && 1 <= Number(s[8..10]) <= 31
  {
    hide Number, IsDigits, IsDate;
    var d := s + " 00:00:00";
    assert d[0..4] == s[0..4] && d[5..7] == s[5..7] && d[8..10] == s[8..10];
    assert d[11..13] == d[14..16] == d[17..19] == "00";
    Midnight();
    TimesMean(d, 2);
    DayIsMidnight(s);
  }

  lemma Midnight()
    ensures IsDigits("00") && Number("00") == 0
  {
    assert "00"[..1] == "0" && "0"[..0] == "";
  }

  lemma DayIsMidnight(day: string)
    requires |day| == 10
    ensures IsDate(day) <==> IsDate(day + " 00:00:00")
  {
    hide IsField;
  }

  /** Nothing else is a date. */
  lemma OnlyDates(s: string)
    requires IsDate(s)
    ensures |s| == 10 || 18 <= |s| <= 19
    ensures s[4] == s[7] == '-' && IsDigits(s[0..4]) && IsDigits(s[5..7]) && IsDigits(s[8..10])
    ensures |s| > 10 ==>
              var k := |s| - 17;
              && s[10] == ' ' && s[11 + k] == s[14 + k] == ':'
              && IsDigits(s[11..11 + k]) && IsDigits(s[12 + k..14 + k]) && IsDigits(s[15 + k..17 + k])
  {
    hide Number, IsDigits;
    if |s| == 10 {
      var d := s + " 00:00:00";
      assert d[0..4] == s[0..4] && d[5..7] == s[5..7] && d[8..10] == s[8..10];
      assert d[4] == s[4] && d[7] == s[7];
    }
  }
}
