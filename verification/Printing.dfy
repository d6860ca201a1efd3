/** Printing an expression, and that lexing and parsing the text gives the expression back
    (db/sql/ast/Expression.cpp:94-96, 292-316, db/sql/ast/Function.cpp:472-482,
    db/core/Value.cpp:271-284, db/sql/Printing.cpp). */
module Printing {
  import opened Options
  import opened Tokens
  import opened Grammar
  import opened Reading
  import opened Completeness
  import opened ExpressionParser
  import opened Lexing

  // ---- The printer ----

  function Decimal(n: nat): string {
    if n < 10 then [Digit(n)] else Decimal(n / 10) + [Digit(n % 10)]
  }

  function Digit(n: nat): char
    requires n < 10
  {
    ('0' as int + n) as char
  }

  /** `escape_identifier`. */
  function PrintIdentifier(id: string): string {
    if ' ' in id then "[" + id + "]" else id
  }

  /** `escape_string_literal`; nothing is escaped. */
  function PrintString(s: string): string {
    "'" + s + "'"
  }

  function PrintLiteral(v: Literal): string {
    match v
    case NullLiteral => "NULL"
    case IntLiteral(n) => Decimal(n)
    case StringLiteral(text) => PrintString(text)
    case BoolLiteral(b) => if b then "true" else "false"
    case FloatLiteral(text) => text
    case DateLiteral(text) => text
  }

  function OperationText(op: ArithmeticOperation): string {
    match op
    case Add => " + "
    case Sub => " - "
    case Mul => " * "
    case Div => " / "
    case InvalidArithmetic => " AO? "
  }

  /** The expressions whose printed form is SQL: literals, names, arithmetic, function calls. */
  predicate IsPrintable(e: Expression)
    decreases e
  {
    match e
    case LiteralExpression(v) => IsPrintableLiteral(v)
    case IdentifierExpression(name, table) => table.None? && (IsPlainName(name) || IsSpacedName(name))
    case ArithmeticOperator(left, op, right) => IsPrintable(left) && !op.InvalidArithmetic? && IsPrintable(right)
    case Function(name, args) => IsPlainName(name) && !IsAggregateName(name) && ArePrintable(args)
    case _ => false
  }

  predicate ArePrintable(es: seq<Expression>)
    decreases es
  {
    es == [] || (IsPrintable(es[0]) && ArePrintable(es[1..]))
  }

  predicate IsPrintableLiteral(v: Literal) {
    match v
    case NullLiteral => true
    case IntLiteral(n) => n < 0x8000_0000
    case StringLiteral(text) => '\'' !in text
    case BoolLiteral(_) => true
    case _ => false
  }

  /** A word that is not a keyword. */
  predicate IsPlainName(s: string) {
    s != "" && (IsLetter(s[0]) || s[0] == '_') && Run(s, IsWordChar) == |s| && WordToken(s).kind.Identifier?
  }

  /** A name that has to be put in brackets, and can be. */
  predicate IsSpacedName(s: string) {
    ' ' in s && ']' !in s && !IsSpace(s[0]) && !IsSpace(s[|s| - 1])
  }

  /** `to_string`. */
  function Print(e: Expression): string
    requires IsPrintable(e)
    decreases e
  {
    match e
    case LiteralExpression(v) => PrintLiteral(v)
    case IdentifierExpression(name, _) => PrintIdentifier(name)
    case ArithmeticOperator(left, op, right) => "(" + Print(left) + OperationText(op) + Print(right) + ")"
    case Function(name, args) => name + "(" + PrintList(args) + ")"
  }

  function PrintList(es: seq<Expression>): string
    requires ArePrintable(es)
    decreases es
  {
    if es == [] then ""
    else if |es| == 1 then Print(es[0])
    else Print(es[0]) + ", " + PrintList(es[1..])
  }

  // ---- The tree that is printed ----

  function LiteralToken(v: Literal): Token {
    match v
    case NullLiteral => Fixed(KeywordNull)
    case IntLiteral(n) => Token(Int, Decimal(n))
    case StringLiteral(text) => Token(String, text)
    case BoolLiteral(b) => Token(Bool, if b then "TRUE" else "FALSE")
    case FloatLiteral(text) => Token(Float, text)
    case DateLiteral(text) => Token(Date, text)
  }

  function OperationToken(op: ArithmeticOperation): Token {
    match op
    case Add => Token(OpAdd, "+")
    case Sub => Token(OpSub, "-")
    case Mul => Token(Asterisk, "*")
    case Div => Token(OpDiv, "/")
    case InvalidArithmetic => Token(Garbage, "?")
  }

  /** Every arithmetic operation in parentheses. */
  function Form(e: Expression): Tree
    requires IsPrintable(e)
    decreases e
  {
    match e
    case LiteralExpression(v) => Constant(LiteralToken(v))
    case IdentifierExpression(name, _) => Name(Token(Identifier, name))
    case ArithmeticOperator(left, op, right) => Paren(Infix(Form(left), OperationToken(op), Form(right)),
        Fixed(ParenClose))
    case Function(name, args) => Call(Token(Identifier, name), Forms(args))
  }

  function Forms(es: seq<Expression>): (r: seq<Tree>)
    requires ArePrintable(es)
    ensures |r| == |es|
    decreases es
  {
    if es == [] then [] else [Form(es[0])] + Forms(es[1..])
  }

  // ---- Numbers ----

  lemma {:induction false} DecimalRoundTrip(n: nat)
    ensures IsDigits(Decimal(n)) && Decimal(n) != "" && Number(Decimal(n)) == n
  {
    if n < 10 {
      assert Number([Digit(n)][..0]) == 0;
      assert [Digit(n)][..0] == "";
    } else {
      DecimalRoundTrip(n / 10);
      assert Decimal(n)[..|Decimal(n)| - 1] == Decimal(n / 10);
    }
  }

  /** The form is canonical, and stands for the expression. */
  lemma {:induction false} FormIsCanonical(e: Expression)
    requires IsPrintable(e)
    ensures Canonical(Form(e)) && IsPrimary(Form(e)) && !Form(e).Minus? && Erase(Form(e)) == e
    decreases e
  {
    hide Precedence, KeywordOf, IsOperator;
    match e
    case LiteralExpression(v) => LiteralIsConstant(v);
    case IdentifierExpression(name, _) =>
    case ArithmeticOperator(left, op, right) =>
      FormIsCanonical(left);
      FormIsCanonical(right);
      OperationIsCanonical(Form(left), op, Form(right));
    case Function(name, args) => FormsAreCanonical(args);
  }

  lemma {:induction false} FormsAreCanonical(es: seq<Expression>)
    requires ArePrintable(es)
    ensures CanonicalList(Forms(es)) && EraseList(Forms(es)) == es
    decreases es
  {
    hide Precedence, Form, Erase, Canonical, IsPrintable;
    if es != [] {
      FormIsCanonical(es[0]);
      FormsAreCanonical(es[1..]);
      assert Forms(es)[1..] == Forms(es[1..]);
      assert [es[0]] + es[1..] == es;
    }
  }

  lemma LiteralIsConstant(v: Literal)
    requires IsPrintableLiteral(v)
    ensures IsConstant(LiteralToken(v)) && LiteralOf(LiteralToken(v)) == v
  {
    if v.IntLiteral? {
      DecimalRoundTrip(v.n);
    }
  }

  lemma OperationIsCanonical(l: Tree, op: ArithmeticOperation, r: Tree)
    requires Canonical(l) && IsPrimary(l) && !l.Minus? && Canonical(r) && IsPrimary(r) && !op.InvalidArithmetic?
    ensures var t := Paren(Infix(l, OperationToken(op), r), Fixed(ParenClose));
            Canonical(t) && Erase(t) == ArithmeticOperator(Erase(l), op, Erase(r))
  {
    hide Spelling, Precedence, IsOperator, Follows, IsSeparator;
    var k := OperationToken(op).kind;
    OperationKinds(op);
    Separators();
    PrimaryFollows(l, k);
    assert Edge(r) == LOOSE;
    SeparatorFollows(Infix(l, OperationToken(op), r), ParenClose);
    SeparatorIsNoOperator();
  }

  lemma SeparatorIsNoOperator()
    ensures !IsOperator(ParenClose)
  {
  }

  lemma OperationKinds(op: ArithmeticOperation)
    requires !op.InvalidArithmetic?
    ensures var k := OperationToken(op).kind;
            IsInfixOperator(k) && !IsBinaryOperator(k) && ArithmeticOperationOf(k) == op && Precedence(k) < LOOSE
  {
  }

  lemma PrimaryFollows(t: Tree, k: Kind)
    requires IsPrimary(t) && !t.Minus? && IsOperator(k) && Precedence(k) < LOOSE
    ensures Follows(t, k) && Edge(t) == LOOSE
  {
    hide Precedence;
  }

  /** Decimal digits without leading zeros. */
  lemma {:induction false} DecimalIsPlain(n: nat)
    ensures Decimal(n) != "" && IsDigits(Decimal(n)) && (Decimal(n)[0] == '0' <==> n == 0)
  {
    if n >= 10 {
      DecimalIsPlain(n / 10);
    }
  }

  // ---- What is printed ----

  lemma LiteralsPrinted(s: string, n: nat)
    requires '\'' !in s && n < 0x8000_0000
    ensures Print(LiteralExpression(NullLiteral)) == "NULL"
    ensures Print(LiteralExpression(BoolLiteral(true))) == "true"
    ensures Print(LiteralExpression(BoolLiteral(false))) == "false"
    ensures Print(LiteralExpression(StringLiteral(s))) == "'" + s + "'"
    ensures Print(LiteralExpression(IntLiteral(n))) == Decimal(n)
  {
  }

  /** Operations are printed in parentheses, names with blanks in brackets, items with commas between them. */
  lemma FormsPrinted(l: Expression, r: Expression, name: string, es: seq<Expression>)
    requires IsPrintable(l) && IsPrintable(r) && ArePrintable(es)
    ensures Print(ArithmeticOperator(l, Add, r)) == "(" + Print(l) + " + " + Print(r) + ")"
    ensures Print(ArithmeticOperator(l, Sub, r)) == "(" + Print(l) + " - " + Print(r) + ")"
    ensures Print(ArithmeticOperator(l, Mul, r)) == "(" + Print(l) + " * " + Print(r) + ")"
    ensures Print(ArithmeticOperator(l, Div, r)) == "(" + Print(l) + " / " + Print(r) + ")"
    ensures IsPlainName(name) || IsSpacedName(name) ==>
              Print(IdentifierExpression(name, None)) == if ' ' in name then "[" + name + "]" else name
    ensures IsPlainName(name) && !IsAggregateName(name) ==>
              Print(Function(name, es)) == name + "(" + PrintList(es) + ")"
    ensures PrintList([]) == "" && (|es| == 1 ==> PrintList(es) == Print(es[0]))
    ensures |es| > 1 ==> PrintList(es) == Print(es[0]) + ", " + PrintList(es[1..])
  {
    hide IsPlainName, IsSpacedName, IsAggregateName;
  }

  // ---- Lexing what was printed ----

  /** The text behind a printed expression, as far as the lexer can tell where the expression ends. */
  predicate Ends(rest: string) {
    rest == "" || rest[0] == ' ' || rest[0] == ',' || rest[0] == '(' || rest[0] == ')'
  }

  lemma {:induction false} RunAll(s: string, rest: string, p: char -> bool)
    requires Run(s, p) == |s| && (rest == "" || !p(rest[0]))
    ensures Run(s + rest, p) == |s|
  {
    if s == "" {
      assert s + rest == rest;
    } else {
      RunAll(s[1..], rest, p);
      assert (s + rest)[1..] == s[1..] + rest;
    }
  }

  lemma LexWord(word: string, rest: string)
    requires word != "" && (IsLetter(word[0]) || word[0] == '_') && Run(word, IsWordChar) == |word| && Ends(rest)
    ensures Lex(word + rest) == [WordToken(word)] + Lex(rest)
  {
    hide WordToken, NumberLexeme, FirstOther, SymbolOf, CommentSize;
    RunAll(word, rest, IsWordChar);
    assert (word + rest)[..|word|] == word && (word + rest)[|word|..] == rest;
    assert (word + rest)[0] == word[0];
  }

  lemma {:induction false} DigitsRun(s: string, rest: string)
    requires IsDigits(s) && Ends(rest)
    ensures NumberRun(s + rest, false) == |s|
  {
    if s == "" {
      assert s + rest == rest;
    } else {
      DigitsRun(s[1..], rest);
      assert (s + rest)[1..] == s[1..] + rest;
    }
  }

  lemma LexInt(s: string, rest: string)
    requires s != "" && IsDigits(s) && Ends(rest)
    ensures Lex(s + rest) == [Token(Int, s)] + Lex(rest)
  {
    hide WordToken, FirstOther, SymbolOf, CommentSize;
    DigitsRun(s, rest);
    assert (s + rest)[..|s|] == s && (s + rest)[|s|..] == rest;
    assert (s + rest)[0] == s[0];
    assert '.' !in s;
    assert s != "." by {
      assert IsDigit(s[0]);
    }
  }

  lemma {:induction false} RunUntil(s: string, close: char, rest: string)
    requires close !in s
    ensures Run(s + [close] + rest, Except(close)) == |s|
  {
    var all := s + [close] + rest;
    if s == "" {
      assert all[0] == close;
    } else {
      assert all[0] == s[0];
      assert all[1..] == s[1..] + [close] + rest;
      RunUntil(s[1..], close, rest);
    }
  }

  lemma LexString(s: string, rest: string)
    requires '\'' !in s
    ensures Lex(PrintString(s) + rest) == [Token(String, s)] + Lex(rest)
  {
    hide WordToken, NumberLexeme, SymbolOf, CommentSize, DelimitedTrimmed;
    RunUntil(s, '\'', rest);
    var all := PrintString(s) + rest;
    assert all[1..] == s + ['\''] + rest;
    assert all[1..][..|s|] == s && all[|s| + 2..] == rest;
    NoSymbol();
  }

  lemma SymbolClass(c: char)
    requires SymbolOf(c).Some? || c == '-'
    ensures !IsLetter(c) && c != '_' && !IsSpace(c) && !IsDigit(c) && c != '.' && (SymbolOf(c).Some? ==> c != '-')
  {
  }

  lemma LexSymbol(c: char, rest: string)
    requires SymbolOf(c).Some?
    ensures Lex([c] + rest) == [Token(SymbolOf(c).value, [c])] + Lex(rest)
  {
    hide WordToken, NumberLexeme, FirstOther, CommentSize, SymbolOf, IsLetter, IsSpace, IsDigit, IsComment;
    var all := [c] + rest;
    assert all[0] == c && all[1..] == rest;
    SymbolClass(c);
  }

  lemma LexDash(rest: string)
    requires rest == "" || rest[0] != '-'
    ensures Lex("-" + rest) == [Token(OpSub, "-")] + Lex(rest)
  {
    hide WordToken, NumberLexeme, FirstOther, CommentSize, SymbolOf, IsLetter, IsSpace, IsDigit;
    var all := "-" + rest;
    assert all[0] == '-' && all[1..] == rest;
    SymbolClass('-');
    assert !IsComment(all) by {
      if |all| >= 3 {
        assert all[..3][1] == rest[0];
      }
    }
  }

  lemma LexSpace(rest: string)
    ensures Lex(" " + rest) == Lex(rest)
  {
    hide WordToken, NumberLexeme, FirstOther, CommentSize, SymbolOf;
    var all := " " + rest;
    assert all[0] == ' ' && all[1..] == rest;
    var n := Run(rest, IsSpace);
    assert Run(all, IsSpace) == 1 + n;
    assert all[1 + n..] == rest[n..];
    if rest == "" || !IsSpace(rest[0]) {
      assert rest[0..] == rest;
    } else {
      assert First(rest) == Lexeme(None, n);
    }
  }

  lemma WordTokens(name: string)
    ensures WordToken("NULL") == Fixed(KeywordNull)
    ensures WordToken("true") == Token(Bool, "TRUE") && WordToken("false") == Token(Bool, "FALSE")
    ensures WordToken(name).kind.Identifier? ==> WordToken(name) == Token(Identifier, name)
  {
    assert Upper("NULL") == "NULL";
    assert Upper("true") == "TRUE";
    assert Upper("false") == "FALSE";
    NoKeywords();
    KeywordKinds(Upper(name));
  }

  lemma NoKeywords()
    ensures KeywordOf("TRUE").None? && KeywordOf("FALSE").None?
  {
    assert "TRUE"[0] == 'T' && "TRUE"[1] == 'R' && "FALSE"[0] == 'F' && "FALSE"[1] == 'A';
  }

  lemma KeywordKinds(u: string)
    ensures KeywordOf(u).Some? ==> !KeywordOf(u).value.Identifier?
  {
  }

  lemma LexLiteral(v: Literal, rest: string)
    requires IsPrintableLiteral(v) && Ends(rest)
    ensures Lex(PrintLiteral(v) + rest) == [LiteralToken(v)] + Lex(rest)
  {
    hide Lex, WordToken, Spelling;
    WordTokens("");
    match v
    case NullLiteral =>
      LexWord("NULL", rest);
    case IntLiteral(n) =>
      DecimalRoundTrip(n);
      LexInt(Decimal(n), rest);
    case StringLiteral(text) =>
      LexString(text, rest);
    case BoolLiteral(b) =>
      LexWord("true", rest);
      LexWord("false", rest);
  }

  lemma LexName(name: string, rest: string)
    requires IsPlainName(name) && Ends(rest)
    ensures Lex(name + rest) == [Token(Identifier, name)] + Lex(rest)
    ensures PrintIdentifier(name) == name
  {
    hide Lex, WordToken;
    WordTokens(name);
    LexWord(name, rest);
    RunChars(name, IsWordChar);
  }

  lemma {:induction false} RunChars(s: string, p: char -> bool)
    requires Run(s, p) == |s|
    ensures forall i | 0 <= i < |s| :: p(s[i])
  {
    if s != "" {
      RunChars(s[1..], p);
    }
  }

  lemma LexSpaced(id: string, rest: string)
    requires IsSpacedName(id)
    ensures Lex("[" + id + "]" + rest) == [Token(Identifier, id)] + Lex(rest)
  {
    hide WordToken, NumberLexeme, SymbolOf, CommentSize;
    var all := "[" + id + "]" + rest;
    assert all[0] == '[' && all[1..] == id + [']'] + rest;
    NoSymbol();
    assert all[1..][0] == id[0];
    assert Run(all[1..], IsSpace) == 0;
    assert all[1..][0..] == all[1..];
    RunUntil(id, ']', rest);
    assert all[1..][..|id|] == id && all[|id| + 2..] == rest;
  }

  lemma NoSymbol()
    ensures SymbolOf('[').None? && SymbolOf('\'').None?
  {
  }

  lemma LexIdentifier(id: string, rest: string)
    requires (IsPlainName(id) || IsSpacedName(id)) && Ends(rest)
    ensures Lex(PrintIdentifier(id) + rest) == [Token(Identifier, id)] + Lex(rest)
  {
    hide Lex, WordToken;
    if ' ' in id {
      if IsPlainName(id) {
        RunChars(id, IsWordChar);
      }
      LexSpaced(id, rest);
    } else {
      LexName(id, rest);
    }
  }

  /** The operator between two printed operands. */
  lemma LexOperation(op: ArithmeticOperation, rest: string)
    requires !op.InvalidArithmetic?
    ensures Lex(OperationText(op) + rest) == [OperationToken(op)] + Lex(rest)
    ensures OperationText(op) != "" && OperationText(op)[0] == ' '
  {
    hide Lex;
    var c := OperationToken(op).value;
    assert OperationText(op) + rest == " " + (c + (" " + rest));
    LexSpace(c + (" " + rest));
    Symbols();
    if op.Sub? {
      LexDash(" " + rest);
    } else {
      LexSymbol(c[0], " " + rest);
    }
    LexSpace(rest);
  }

  lemma Symbols()
    ensures SymbolOf('(') == Some(ParenOpen) && SymbolOf(')') == Some(ParenClose) && SymbolOf(',') == Some(Comma)
    ensures SymbolOf('+') == Some(OpAdd) && SymbolOf('*') == Some(Asterisk) && SymbolOf('/') == Some(OpDiv)
    ensures Fixed(ParenOpen) == Token(ParenOpen, "(") && Fixed(ParenClose) == Token(ParenClose, ")")
            && Fixed(Comma) == Token(Comma, ",")
  {
  }

  /** The text of a printed expression is lexed into the tokens of its form. */
  lemma {:induction false} LexPrinted(e: Expression, rest: string)
    requires IsPrintable(e) && Ends(rest)
    ensures Lex(Print(e) + rest) == Yield(Form(e)) + Lex(rest)
    decreases e
  {
    hide Lex, WordToken, Spelling, Print, Form, Yield;
    match e
    case LiteralExpression(v) =>
      LeafPrinted(e);
      LexLiteral(v, rest);
    case IdentifierExpression(name, _) =>
      LeafPrinted(e);
      LexIdentifier(name, rest);
    case ArithmeticOperator(left, op, right) =>
      LexOperationPrinted(e, rest);
    case Function(name, args) =>
      LexCallPrinted(e, rest);
  }

  lemma LeafPrinted(e: Expression)
    requires IsPrintable(e)
    ensures e.LiteralExpression? ==> Print(e) == PrintLiteral(e.value) && Yield(Form(e)) == [LiteralToken(e.value)]
    ensures e.IdentifierExpression? ==>
              Print(e) == PrintIdentifier(e.name) && Yield(Form(e)) == [Token(Identifier, e.name)]
  {
    hide Spelling, WordToken;
  }

  lemma OperationPrinted(e: Expression)
    requires e.ArithmeticOperator? && IsPrintable(e)
    ensures Print(e) == "(" + Print(e.left) + OperationText(e.arithmetic) + Print(e.right) + ")"
    ensures Yield(Form(e)) ==
            [Fixed(ParenOpen)] + (Yield(Form(e.left)) + [OperationToken(e.arithmetic)] + Yield(Form(e.right)))
                + [Fixed(ParenClose)]
  {
    hide Spelling, WordToken, OperationToken, OperationText;
  }

  lemma {:induction false} LexOperationPrinted(e: Expression, rest: string)
    requires e.ArithmeticOperator? && IsPrintable(e) && Ends(rest)
    ensures Lex(Print(e) + rest) == Yield(Form(e)) + Lex(rest)
    decreases e, 0
  {
    hide Lex, WordToken, Spelling, Print, Form, Yield, OperationToken, OperationText, SymbolOf;
    OperationPrinted(e);
    var l, o, r := Print(e.left), OperationText(e.arithmetic), Print(e.right);
    var end := ")" + rest;
    Symbols();
    LexSymbol('(', l + (o + (r + end)));
    LexOperation(e.arithmetic, r + end);
    LexPrinted(e.left, o + (r + end));
    LexPrinted(e.right, end);
    LexSymbol(')', rest);
    Regrouped(l, o, r, rest);
  }

  lemma Regrouped(l: string, o: string, r: string, rest: string)
    ensures "(" + l + o + r + ")" + rest == "(" + (l + (o + (r + (")" + rest))))
  {
  }

  lemma CallPrinted(e: Expression)
    requires e.Function? && IsPrintable(e)
    ensures Print(e) == e.name + "(" + PrintList(e.args) + ")"
    ensures Yield(Form(e)) == [Token(Identifier, e.name), Fixed(ParenOpen)] + YieldList(Forms(e.args))
            + [Fixed(ParenClose)]
  {
    hide Spelling, WordToken;
  }

  lemma {:induction false} LexCallPrinted(e: Expression, rest: string)
    requires e.Function? && IsPrintable(e) && Ends(rest)
    ensures Lex(Print(e) + rest) == Yield(Form(e)) + Lex(rest)
    decreases e, 0
  {
    hide Lex, WordToken, Spelling, Print, Form, Yield, YieldList, Forms, PrintList;
    CallPrinted(e);
    var list := PrintList(e.args);
    Symbols();
    LexName(e.name, "(" + (list + (")" + rest)));
    LexSymbol('(', list + (")" + rest));
    LexListPrinted(e.args, ")" + rest);
    LexSymbol(')', rest);
    assert Print(e) + rest == e.name + ("(" + (list + (")" + rest)));
  }

  lemma ListPrinted(es: seq<Expression>)
    requires ArePrintable(es) && es != []
    ensures IsPrintable(es[0]) && ArePrintable(es[1..])
    ensures |es| == 1 ==> PrintList(es) == Print(es[0]) && YieldList(Forms(es)) == Yield(Form(es[0]))
    ensures |es| > 1 ==>
              && PrintList(es) == Print(es[0]) + ", " + PrintList(es[1..])
              && YieldList(Forms(es)) == Yield(Form(es[0])) + [Fixed(Comma)] + YieldList(Forms(es[1..]))
  {
    hide Spelling, Print, Form, Yield, IsPrintable;
    assert Forms(es)[1..] == Forms(es[1..]);
  }

  lemma {:induction false} LexListPrinted(es: seq<Expression>, rest: string)
    requires ArePrintable(es) && Ends(rest)
    ensures Lex(PrintList(es) + rest) == YieldList(Forms(es)) + Lex(rest)
    decreases es
  {
    hide Lex, WordToken, Spelling, Print, Form, Yield, PrintList, Forms, YieldList, ArePrintable, IsPrintable;
    if es == [] {
      NothingPrinted();
      assert "" + rest == rest && [] + Lex(rest) == Lex(rest);
    } else {
      ListPrinted(es);
      if |es| == 1 {
        LexPrinted(es[0], rest);
      } else {
        var more := PrintList(es[1..]) + rest;
        LexPrinted(es[0], "," + (" " + more));
        LexComma(more);
        LexListPrinted(es[1..], rest);
        assert PrintList(es) + rest == Print(es[0]) + ("," + (" " + more));
      }
    }
  }

  lemma NothingPrinted()
    ensures PrintList([]) == "" && YieldList(Forms([])) == []
  {
  }

  lemma LexComma(more: string)
    ensures Lex("," + (" " + more)) == [Fixed(Comma)] + Lex(more)
  {
    hide Lex, SymbolOf;
    Symbols();
    LexSymbol(',', " " + more);
    LexSpace(more);
  }

  /** Printing, lexing and parsing give the expression back. */
  lemma RoundTrip(e: Expression)
    requires IsPrintable(e)
    ensures var ts := Lex(Print(e));
            var r := ReadExpression(ts, 0, 0);
            r.Ok? && Erase(r.value) == e && r.next + 1 == |ts| && ts[r.next].kind.Eof?
  {
    hide ReadExpression, Print, Form, Yield, Erase, Canonical, Lex, IsSeparator;
    PrintedTokens(e);
    FormIsCanonical(e);
    var ts := Lex(Print(e));
    assert Stand(ts, 0, Yield(Form(e)));
    EofSeparates();
    ReadsWhole(ts, 0, Form(e));
  }

  lemma PrintedTokens(e: Expression)
    requires IsPrintable(e)
    ensures Lex(Print(e)) == Yield(Form(e)) + [Token(Eof, "EOF")]
  {
    hide Print, Form, Yield, First;
    LexPrinted(e, "");
    assert Print(e) + "" == Print(e);
  }

  lemma EofSeparates()
    ensures IsSeparator(Eof)
  {
  }

  /** The same, by the lexer and the parser. */
  method Reparse(e: Expression) returns (r: Option<Expression>)
    requires IsPrintable(e)
    ensures r == Some(e)
  {
    hide ReadExpression, Print, Erase, Lex;
    RoundTrip(e);
    var lexer := new Lexer(Print(e));
    var tokens := lexer.Tokenize();
    var parser := new Parser(tokens);
    r := parser.ParseExpression(0);
  }

  // ---- Exactly when names and strings survive printing ----

  lemma FirstValue(s: string)
    requires s != ""
    ensures First(s).token.Some? && First(s).token.value.kind.Identifier?
            ==> |First(s).token.value.value| <= First(s).size <= |s|
  {
    hide KeywordOf;
    KeywordKinds(Upper(s[..Run(s, IsWordChar)]));
    if s[0] == '[' {
      TrimEndLength(DelimitedTrimmed(Identifier, s[1..], ']').token.value.value);
    }
  }

  lemma {:induction false} TrimEndLength(s: string)
    ensures |TrimEnd(s)| <= |s| && (TrimEnd(s) == s <==> s == "" || !IsSpace(s[|s| - 1]))
  {
    if s != "" && IsSpace(s[|s| - 1]) {
      TrimEndLength(s[..|s| - 1]);
    }
  }

  lemma {:induction false} FirstIdentifier(s: string)
    ensures Lex(s)[0].kind.Identifier? ==> |Lex(s)[0].value| <= |s|
    decreases |s|
  {
    hide First;
    if s != "" {
      FirstSize(s);
      FirstValue(s);
      FirstIdentifier(s[First(s).size..]);
    }
  }

  /** A name without spaces is printed as it is; it is read back exactly if it is a word and not a keyword. */
  lemma PlainNameExact(id: string)
    requires ' ' !in id
    ensures Lex(id)[0] == Token(Identifier, id) <==> IsPlainName(id)
  {
    hide WordToken, NumberLexeme, SymbolOf, CommentSize;
    if IsPlainName(id) {
      LexName(id, "");
      assert id + "" == id;
    } else if id != "" {
      NoSymbol();
      if IsLetter(id[0]) || id[0] == '_' {
        WordTokens(id[..Run(id, IsWordChar)]);
        assert id[..|id|] == id;
      } else if IsSpace(id[0]) {
        FirstSize(id);
        FirstIdentifier(id[First(id).size..]);
      } else if id[0] == '[' {
        OpenBracket(id);
      } else {
        NumberIsNoIdentifier(id);
        SymbolIsNoIdentifier(id[0]);
        CommentHasSpace(id);
      }
    }
  }

  lemma CommentHasSpace(s: string)
    ensures IsComment(s) ==> ' ' in s
  {
    if IsComment(s) {
      assert s[2] == s[..3][2];
    }
  }

  lemma NumberIsNoIdentifier(s: string)
    ensures NumberLexeme(s).token.Some? && !NumberLexeme(s).token.value.kind.Identifier?
  {
  }

  lemma SymbolIsNoIdentifier(c: char)
    ensures SymbolOf(c).Some? ==> !SymbolOf(c).value.Identifier?
  {
  }

  /** A bracket is never part of the name. */
  lemma OpenBracket(s: string)
    requires s != "" && s[0] == '['
    ensures First(s).token.Some? && First(s).token.value.value != s
  {
    hide WordToken, NumberLexeme, CommentSize, TrimEnd;
    NoSymbol();
    var body := DelimitedTrimmed(Identifier, s[1..], ']').token.value.value;
    TrimEndPrefix(body);
    TrimEndLength(body);
    var w := Run(s[1..], IsSpace);
    if TrimEnd(body) == s {
      assert body[0] == '[';
      assert body == s[1..] + [255 as char];
      AllTheSame(s, 255 as char);
    }
  }

  lemma {:induction false} TrimEndPrefix(s: string)
    ensures TrimEnd(s) <= s
  {
    if s != "" && IsSpace(s[|s| - 1]) {
      TrimEndPrefix(s[..|s| - 1]);
    }
  }

  lemma {:induction false} AllTheSame(s: string, c: char)
    requires s != "" && s[1..] + [c] == s
    ensures s[0] == c
  {
    var k := |s| - 1;
    assert s[k] == c;
    while k > 0
      invariant 0 <= k < |s| && s[k] == c
    {
      assert s[k - 1] == (s[1..] + [c])[k - 1] == s[k];
      k := k - 1;
    }
  }

  /** A name with spaces is printed in brackets; it is read back exactly if no bracket closes early
      and it neither starts nor ends with white space. */
  lemma SpacedNameExact(id: string)
    requires ' ' in id
    ensures Lex(PrintIdentifier(id))[0] == Token(Identifier, id) <==> IsSpacedName(id)
  {
    hide WordToken, NumberLexeme, CommentSize, SymbolOf;
    var all := PrintIdentifier(id);
    NoSymbol();
    assert all[0] == '[' && all[1..] == id + "]";
    var body := DelimitedTrimmed(Identifier, all[1..], ']').token.value.value;
    BracketBody(id);
    TrimEndLength(body);
    TrimEndLength(id);
  }

  /** What is found between brackets put around `id`: `id` itself, or something shorter. */
  lemma BracketBody(id: string)
    requires ' ' in id
    ensures var body := DelimitedTrimmed(Identifier, id + "]", ']').token.value.value;
            if IsSpace(id[0]) || ']' in id then |body| < |id| else body == id
  {
    var s := id + "]";
    var w := Run(s, IsSpace);
    RunShort(s, IsSpace, |id|);
    RunShort(s[w..], Except(']'), |id| - w);
    if ']' in id {
      var k :| 0 <= k < |id| && id[k] == ']';
      RunShort(s, IsSpace, k);
      RunShort(s[w..], Except(']'), k - w);
    } else if !IsSpace(id[0]) {
      RunUntil(id, ']', "");
      assert id + [']'] + "" == s && s[0..] == s;
      assert s[..|id|] == id;
    }
  }

  /** A run ends before a character that does not belong to it. */
  lemma {:induction false} RunShort(s: string, p: char -> bool, k: nat)
    requires k < |s| && !p(s[k])
    ensures Run(s, p) <= k
  {
    if k > 0 && p(s[0]) {
      RunShort(s[1..], p, k - 1);
    }
  }

  /** A string is read back exactly if it has no quote. */
  lemma StringExact(s: string)
    ensures Lex(PrintString(s)) == [Token(String, s), Token(Eof, "EOF")] <==> '\'' !in s
  {
    hide WordToken, NumberLexeme, CommentSize, SymbolOf, DelimitedTrimmed;
    var all := PrintString(s);
    NoSymbol();
    if '\'' in s {
      assert all[0] == '\'' && all[1..] == s + "'";
      var k :| 0 <= k < |s| && s[k] == '\'';
      RunShort(all[1..], Except('\''), k);
      assert |First(all).token.value.value| <= k;
      assert Lex(all)[0] == First(all).token.value;
    } else {
      LexString(s, "");
      assert all + "" == all;
    }
  }
}
