/** The lexer (db/sql/Lexer.cpp). Characters are bytes; positions are left out. */
module Lexing {
  import opened Options
  import opened Tokens
  import opened Grammar

  predicate IsLetter(c: char) {
    'a' <= c <= 'z' || 'A' <= c <= 'Z'
  }

  predicate IsWordChar(c: char) {
    IsLetter(c) || IsDigit(c) || c == '_'
  }

  predicate IsSpace(c: char) {
    c == ' ' || '\t' <= c <= '\r'
  }

  /** How many characters at the start of `s` satisfy `p`. */
  function Run(s: string, p: char -> bool): (n: nat)
    ensures n <= |s|
  {
    if s == "" || !p(s[0]) then 0 else 1 + Run(s[1..], p)
  }

  function Except(close: char): char -> bool {
    c => c != close
  }

  function Upper(s: string): (r: string)
    ensures |r| == |s|
  {
    seq(|s|, i requires 0 <= i < |s| => ToUpper(s[i]))
  }

  function WordToken(word: string): Token {
    var u := Upper(word);
    match KeywordOf(u)
    case Some(k) => Token(k, u)
    case None =>
      if u == "TRUE" || u == "FALSE" then Token(Bool, u)
      else if u == "ASC" || u == "DESC" then Token(OrderByParam, word)
      else Token(Identifier, word)
  }

  /** The digits of a number, with at most one decimal point. */
  function NumberRun(s: string, decimal: bool): (n: nat)
    ensures n <= |s|
  {
    if s == "" then 0
    else if IsDigit(s[0]) then 1 + NumberRun(s[1..], decimal)
    else if s[0] == '.' && !decimal then 1 + NumberRun(s[1..], true)
    else 0
  }

  /** A token, or nothing (white space, a comment), and how many characters it takes. */
  datatype Lexeme = Lexeme(token: Option<Token>, size: nat)

  /** A second decimal point ends the number and is swallowed. */
  function NumberLexeme(s: string): Lexeme {
    var n := NumberRun(s, false);
    var kind := if s[..n] == "." then Period else if '.' in s[..n] then Float else Int;
    Lexeme(Some(Token(kind, s[..n])), if n < |s| && s[n] == '.' then n + 1 else n)
  }

  /** The characters up to `close`. If it is missing, the end-of-file mark is taken for a character. */
  function Delimited(kind: Kind, s: string, close: char): Lexeme {
    var n := Run(s, Except(close));
    if n < |s| then Lexeme(Some(Token(kind, s[..n])), n + 1) else Lexeme(Some(Token(kind, s + [255 as char])), n)
  }

  /** The same behind leading white space. */
  function DelimitedTrimmed(kind: Kind, s: string, close: char): Lexeme {
    var w := Run(s, IsSpace);
    if w == |s| then Lexeme(Some(Token(kind, "")), w)
    else
      var l := Delimited(kind, s[w..], close);
      Lexeme(l.token, l.size + w)
  }

  function TrimEnd(s: string): string {
    if s != "" && IsSpace(s[|s| - 1]) then TrimEnd(s[..|s| - 1]) else s
  }

  predicate IsComment(s: string) {
    |s| >= 3 && s[..3] == "-- "
  }

  function CommentSize(s: string): (n: nat)
    ensures n <= |s|
  {
    var n := Run(s, Except('\n'));
    if n < |s| then n + 1 else n
  }

  function SymbolOf(c: char): Option<Kind> {
    match c
    case '*' => Some(Asterisk)
    case ',' => Some(Comma)
    case '(' => Some(ParenOpen)
    case ')' => Some(ParenClose)
    case ';' => Some(Semicolon)
    case '+' => Some(OpAdd)
    case '/' => Some(OpDiv)
    case '=' => Some(OpEqual)
    case '<' => Some(OpLess)
    case '>' => Some(OpGreater)
    case _ => None
  }

  /** The first lexeme of a text that is not empty. */
  function First(s: string): Lexeme
    requires s != ""
  {
    var c := s[0];
    if IsLetter(c) || c == '_' then Lexeme(Some(WordToken(s[..Run(s, IsWordChar)])), Run(s, IsWordChar))
    else if IsSpace(c) then Lexeme(None, Run(s, IsSpace))
    else if IsDigit(c) || c == '.' then NumberLexeme(s)
    else if c == '-' then (if IsComment(s) then Lexeme(None, CommentSize(s)) else Lexeme(Some(Token(OpSub, "-")), 1))
    else if SymbolOf(c).Some? then Lexeme(Some(Token(SymbolOf(c).value, [c])), 1)
    else FirstOther(s)
  }

  function FirstOther(s: string): Lexeme
    requires s != ""
  {
    match s[0]
    case '[' =>
      var l := DelimitedTrimmed(Identifier, s[1..], ']');
      Lexeme(Some(Token(Identifier, TrimEnd(l.token.value.value))), l.size + 1)
    case '!' =>
      if |s| > 1 && s[1] == '=' then Lexeme(Some(Token(OpNotEqual, "!=")), 2)
          else Lexeme(Some(Token(Exclamation, "!")), 1)
    case '\'' =>
      var l := Delimited(String, s[1..], '\'');
      Lexeme(l.token, l.size + 1)
    case '#' =>
      var l := DelimitedTrimmed(Date, s[1..], '#');
      Lexeme(l.token, l.size + 1)
    case _ => Lexeme(Some(Token(Garbage, s[..1])), 1)
  }

  lemma FirstSize(s: string)
    requires s != ""
    ensures 0 < First(s).size <= |s|
  {
    hide WordToken;
  }

  /** The tokens of a text. */
  function Lex(s: string): (ts: seq<Token>)
    ensures ts != []
  {
    if s == "" then [Token(Eof, "EOF")]
    else
      FirstSize(s);
      var l := First(s);
      (if l.token.Some? then [l.token.value] else []) + Lex(s[l.size..])
  }

  lemma {:induction false} RunStep(s: string, p: char -> bool, k: nat)
    requires k <= |s| && forall i | 0 <= i < k :: p(s[i])
    ensures Run(s, p) == k + Run(s[k..], p)
  {
    if k > 0 {
      RunStep(s[1..], p, k - 1);
      assert s[1..][k - 1..] == s[k..];
    } else {
      assert s[0..] == s;
    }
  }

  lemma NumberStep(text: string, pos: nat, decimal: bool)
    requires pos < |text|
    ensures IsDigit(text[pos]) ==>
              NumberRun(text[pos..], decimal) == 1 + NumberRun(text[pos + 1..], decimal) && text[pos] != '.'
    ensures text[pos] == '.' ==> NumberRun(text[pos..], decimal) == if decimal then 0
            else 1 + NumberRun(text[pos + 1..], true)
  {
    assert text[pos..][1..] == text[pos + 1..];
  }

  lemma NumberEnd(text: string, pos: nat, decimal: bool)
    requires pos <= |text| && (pos < |text| ==> !IsDigit(text[pos]) && text[pos] != '.')
    ensures NumberRun(text[pos..], decimal) == 0
  {
  }

  class Lexer {
    const text: string
    var pos: nat

    constructor (text: string)
      ensures this.text == text && pos == 0
    {
      this.text, pos := text, 0;
    }

    ghost predicate Valid()
      reads this
    {
      pos <= |text|
    }

    /** Consumes the characters that satisfy `p`. */
    method ConsumeWhile(p: char -> bool) returns (s: string)
      requires Valid()
      modifies this
      ensures Valid() && pos == old(pos) + Run(text[old(pos)..], p)
      ensures s == text[old(pos)..pos] == text[old(pos)..][..Run(text[old(pos)..], p)]
    {
      s := "";
      while pos < |text| && p(text[pos])
        invariant old(pos) <= pos <= |text| && s == text[old(pos)..pos]
        invariant forall i | old(pos) <= i < pos :: p(text[i])
      {
        s := s + [text[pos]];
        pos := pos + 1;
      }
      RunStep(text[old(pos)..], p, pos - old(pos));
      assert text[old(pos)..][pos - old(pos)..] == text[pos..];
    }

    method ConsumeNumber() returns (s: string)
      requires Valid()
      modifies this
      ensures Valid()
      ensures var l := NumberLexeme(text[old(pos)..]);
                pos == old(pos) + l.size && s == text[old(pos)..][..NumberRun(text[old(pos)..], false)]
    {
      hide NumberRun, IsDigit;
      s := "";
      var hasDecimal := false;
      while pos < |text| && (IsDigit(text[pos]) || text[pos] == '.')
        invariant old(pos) <= pos <= |text| && s == text[old(pos)..pos]
        invariant NumberRun(text[old(pos)..], false) == pos - old(pos) + NumberRun(text[pos..], hasDecimal)
      {
        var c := text[pos];
        NumberStep(text, pos, hasDecimal);
        pos := pos + 1;
        if c == '.' {
          if hasDecimal {
            return;
          }
          hasDecimal := true;
        }
        s := s + [c];
      }
      NumberEnd(text, pos, hasDecimal);
    }

    /** Consumes up to and including `close`. */
    method ConsumeDelimited(close: char) returns (s: string)
      requires Valid()
      modifies this
      ensures Valid() && old(pos) <= pos
      ensures forall kind :: Delimited(kind, text[old(pos)..], close) == Lexeme(Some(Token(kind, s)), pos - old(pos))
    {
      s := ConsumeWhile(Except(close));
      if pos < |text| {
        pos := pos + 1;
      } else {
        assert s == text[old(pos)..];
        s := s + [255 as char];
      }
    }

    method ConsumeTrimmed(close: char) returns (s: string)
      requires Valid()
      modifies this
      ensures Valid() && old(pos) <= pos
      ensures forall kind ::
                DelimitedTrimmed(kind, text[old(pos)..], close) == Lexeme(Some(Token(kind, s)), pos - old(pos))
    {
      hide Delimited;
      var space := ConsumeWhile(IsSpace);
      if pos == |text| {
        return "";
      }
      assert text[old(pos)..][pos - old(pos)..] == text[pos..];
      s := ConsumeDelimited(close);
    }

    /** One turn of the lexer's loop. */
    method Next() returns (t: Option<Token>)
      requires Valid() && pos < |text|
      modifies this
      ensures Valid() && old(pos) <= pos && First(text[old(pos)..]) == Lexeme(t, pos - old(pos))
    {
      hide WordToken, NumberLexeme, FirstOther, SymbolOf, CommentSize;
      var c := text[pos];
      if IsLetter(c) || c == '_' {
        var id := ConsumeWhile(IsWordChar);
        return Some(WordToken(id));
      } else if IsSpace(c) {
        var space := ConsumeWhile(IsSpace);
        return None;
      } else if IsDigit(c) || c == '.' {
        t := NextNumber();
      } else if c == '-' {
        t := NextDash();
      } else if SymbolOf(c).Some? {
        pos := pos + 1;
        return Some(Token(SymbolOf(c).value, [c]));
      } else {
        t := NextOther();
      }
    }

    method NextNumber() returns (t: Option<Token>)
      requires Valid()
      modifies this
      ensures Valid() && old(pos) <= pos && NumberLexeme(text[old(pos)..]) == Lexeme(t, pos - old(pos))
    {
      var number := ConsumeNumber();
      t := Some(Token(if number == "." then Period else if '.' in number then Float else Int, number));
    }

    /** A minus sign, unless another one and a space follow. */
    method NextDash() returns (t: Option<Token>)
      requires Valid() && pos < |text| && text[pos] == '-'
      modifies this
      ensures Valid()
      ensures var s := text[old(pos)..];
              if IsComment(s) then t == None && pos == old(pos) + CommentSize(s)
              else t == Some(Token(OpSub, "-")) && pos == old(pos) + 1
    {
      if pos + 2 < |text| && text[pos + 1] == '-' && text[pos + 2] == ' ' {
        var comment := ConsumeWhile(Except('\n'));
        if pos < |text| {
          pos := pos + 1;
        }
        return None;
      }
      pos := pos + 1;
      return Some(Token(OpSub, "-"));
    }

    method NextOther() returns (t: Option<Token>)
      requires Valid() && pos < |text|
      modifies this
      ensures Valid() && old(pos) <= pos && FirstOther(text[old(pos)..]) == Lexeme(t, pos - old(pos))
    {
      hide Delimited, DelimitedTrimmed;
      var c := text[pos];
      pos := pos + 1;
      assert text[old(pos)..][1..] == text[pos..];
      match c {
        case '[' =>
          var id := ConsumeTrimmed(']');
          t := Some(Token(Identifier, TrimEnd(id)));
        case '!' =>
          if pos < |text| && text[pos] == '=' {
            pos := pos + 1;
            return Some(Token(OpNotEqual, "!="));
          }
          return Some(Token(Exclamation, "!"));
        case '\'' =>
          var id := ConsumeDelimited('\'');
          t := Some(Token(String, id));
        case '#' =>
          var id := ConsumeTrimmed('#');
          t := Some(Token(Date, id));
        case _ =>
          assert text[old(pos)..][..1] == [c];
          return Some(Token(Garbage, [c]));
      }
    }

    method Tokenize() returns (tokens: seq<Token>)
      requires pos == 0
      modifies this
      ensures tokens == Lex(text)
    {
      hide First, Lex;
      tokens := [];
      assert text[0..] == text;
      while pos < |text|
        invariant Valid() && tokens + Lex(text[pos..]) == Lex(text)
      {
        LexStep(text, pos);
        var t := Next();
        if t.Some? {
          tokens := tokens + [t.value];
        }
      }
      assert text[pos..] == "";
      LexEnd();
      tokens := tokens + [Token(Eof, "EOF")];
    }
  }

  lemma LexStep(text: string, pos: nat)
    requires pos < |text|
    ensures var l := First(text[pos..]);
            && 0 < l.size <= |text| - pos
            && Lex(text[pos..]) == (if l.token.Some? then [l.token.value] else []) + Lex(text[pos + l.size..])
  {
    hide First;
    FirstSize(text[pos..]);
    assert text[pos..][First(text[pos..]).size..] == text[pos + First(text[pos..]).size..];
  }

  lemma LexEnd()
    ensures Lex("") == [Token(Eof, "EOF")]
  {
  }
}
