/** What the expression parser makes of the forms an expression can have (db/sql/Parser.cpp:890-980,
    1060-1089, 1119-1128, 1191-1336). */
module ParsedMeanings {
  import opened Options
  import opened Tokens
  import opened Grammar
  import opened Reading
  import opened Completeness
  import opened PrecedenceTrees
  import opened OperatorBinding
  import opened ExpressionParser

  /** The parser returns what the tree of the tokens stands for. */
  lemma MeansAs(ts: seq<Token>, t: Tree)
    requires Canonical(t) && Yield(t) == ts
    ensures Answer(ReadExpression(ts, 0, 0)) == Some(Erase(t))
  {
    hide ReadExpression, Canonical, Yield, Erase;
    ReadAs(ts, t);
  }

  /** Each infix operator is the operation of its name; the asterisk multiplies. */
  lemma OperatorsMean(a: Tree, p: Token, b: Tree, x: BinaryOperation, y: ArithmeticOperation)
    requires IsAtom(a) && IsAtom(b)
    ensures (p.kind, x) in {(OpEqual, Equal), (OpNotEqual, NotEqual), (OpGreater, Greater), (OpLess, Less),
                            (KeywordLike, Like), (KeywordMatch, Match), (KeywordAnd, And), (KeywordOr, Or)} ==>
              Answer(ReadExpression(Yield(a) + [p] + Yield(b), 0, 0)) == Some(BinaryOperator(Erase(a), x, Erase(b)))
    ensures (p.kind, y) in {(OpAdd, Add), (OpSub, Sub), (OpMul, Mul), (Asterisk, Mul), (OpDiv, Div)} ==>
              Answer(ReadExpression(Yield(a) + [p] + Yield(b), 0, 0)) == Some(ArithmeticOperator(Erase(a), y, Erase(b)))
  {
    hide ReadExpression, IsAtom, Canonical, Edge, Reach, Yield, Erase;
    AtomFits(a);
    AtomFits(b);
    if IsInfixOperator(p.kind) {
      Levels(p.kind);
      InfixFits(a, p, b);
      MeansAs(Yield(a) + [p] + Yield(b), Infix(a, p, b));
      InfixMeans(a, p, b, x, y);
    }
  }

  lemma InfixMeans(a: Tree, p: Token, b: Tree, x: BinaryOperation, y: ArithmeticOperation)
    ensures (p.kind, x) in {(OpEqual, Equal), (OpNotEqual, NotEqual), (OpGreater, Greater), (OpLess, Less),
                            (KeywordLike, Like), (KeywordMatch, Match), (KeywordAnd, And), (KeywordOr, Or)} ==>
              Erase(Infix(a, p, b)) == BinaryOperator(Erase(a), x, Erase(b))
    ensures (p.kind, y) in {(OpAdd, Add), (OpSub, Sub), (OpMul, Mul), (Asterisk, Mul), (OpDiv, Div)} ==>
              Erase(Infix(a, p, b)) == ArithmeticOperator(Erase(a), y, Erase(b))
  {
    hide IsBinaryOperator, BinaryOperationOf, ArithmeticOperationOf;
    BinaryTable(p.kind, x);
    ArithmeticTable(p.kind, y);
  }

  lemma BinaryTable(k: Kind, x: BinaryOperation)
    ensures (k, x) in {(OpEqual, Equal), (OpNotEqual, NotEqual), (OpGreater, Greater), (OpLess, Less),
                       (KeywordLike, Like), (KeywordMatch, Match), (KeywordAnd, And), (KeywordOr, Or)} ==>
              IsBinaryOperator(k) && BinaryOperationOf(k) == x
  {
  }

  lemma ArithmeticTable(k: Kind, y: ArithmeticOperation)
    ensures (k, y) in {(OpAdd, Add), (OpSub, Sub), (OpMul, Mul), (Asterisk, Mul), (OpDiv, Div)} ==>
              !IsBinaryOperator(k) && ArithmeticOperationOf(k) == y
  {
  }

  lemma ErasedForms(a: Tree, b: Tree, c: Tree)
    ensures Erase(Between(a, b, c)) == BetweenExpression(Erase(a), Erase(b), Erase(c))
    ensures Erase(Is(a, false)) == IsExpression(Erase(a), false) && Erase(Is(a, true)) == IsExpression(Erase(a), true)
  {
  }

  lemma ErasedMore(a: Tree, args: seq<Tree>)
    ensures Erase(Minus(a)) == UnaryMinus(Erase(a)) && Erase(In(a, args)) == InExpression(Erase(a), EraseList(args))
  {
  }

  /** BETWEEN has the lower bound in front of the upper one; IS NOT NULL is IS NULL negated; a minus sign
      negates; IN has the items. */
  lemma KeywordsMean(a: Tree, b: Tree, c: Tree, args: seq<Tree>)
    requires IsAtom(a) && IsAtom(b) && IsAtom(c) && args != [] && CanonicalList(args)
    ensures Answer(ReadExpression(Yield(a) + [Token(KeywordBetween, "BETWEEN")] + Yield(b) + [Token(KeywordAnd, "AND")]
                                  + Yield(c), 0, 0)) == Some(BetweenExpression(Erase(a), Erase(b), Erase(c)))
    ensures Answer(ReadExpression(Yield(a) + IS_NULL, 0, 0)) == Some(IsExpression(Erase(a), false))
    ensures Answer(ReadExpression(Yield(a) + IS_NOT_NULL, 0, 0)) == Some(IsExpression(Erase(a), true))
    ensures Answer(ReadExpression([Token(OpSub, "-")] + Yield(a), 0, 0)) == Some(UnaryMinus(Erase(a)))
    ensures Answer(ReadExpression(Yield(a) + [Token(KeywordIn, "IN"), Token(ParenOpen, "(")] + YieldList(args)
                                  + [Token(ParenClose, ")")], 0, 0)) == Some(InExpression(Erase(a), EraseList(args)))
  {
    hide ReadExpression, IsAtom, Canonical, Edge, Reach, Yield, Precedence, Answer, Erase;
    AtomFits(a);
    AtomFits(b);
    AtomFits(c);
    ErasedForms(a, b, c);
    ErasedMore(a, args);
    BetweenFits(a, b, c);
    MeansAs(Yield(a) + [Token(KeywordBetween, "BETWEEN")] + Yield(b) + [Token(KeywordAnd, "AND")] + Yield(c),
            Between(a, b, c));
    IsFits(a, false);
    MeansAs(Yield(a) + IS_NULL, Is(a, false));
    IsFits(a, true);
    MeansAs(Yield(a) + IS_NOT_NULL, Is(a, true));
    MinusFits(a);
    MeansAs([Token(OpSub, "-")] + Yield(a), Minus(a));
    InFits(a, args);
    MeansAs(Yield(a) + [Token(KeywordIn, "IN"), Token(ParenOpen, "(")] + YieldList(args) + [Token(ParenClose, ")")],
            In(a, args));
  }

  /** The items of IN and of a call stand between commas, and mean one after the other what each means. */
  lemma {:induction false} ListMeans(args: seq<Tree>)
    ensures |EraseList(args)| == |args| && forall i | 0 <= i < |args| :: EraseList(args)[i] == Erase(args[i])
    ensures |args| == 1 ==> YieldList(args) == Yield(args[0])
    ensures |args| > 1 ==> YieldList(args) == Yield(args[0]) + [Token(Comma, ",")] + YieldList(args[1..])
  {
    hide Erase, Yield;
    if args != [] {
      ListMeans(args[1..]);
    }
  }

  /** The branches of a CASE, one after the other. */
  lemma WhensMean(a: Tree, b: Tree, ws: Whens)
    ensures YieldWhens(NoWhen) == [] && EraseWhens(NoWhen) == []
    ensures YieldWhens(When(a, b, ws)) == [Token(KeywordWhen, "WHEN")] + Yield(a) + [Token(KeywordThen, "THEN")]
                                          + Yield(b) + YieldWhens(ws)
    ensures EraseWhens(When(a, b, ws)) == [(Erase(a), Erase(b))] + EraseWhens(ws)
  {
    hide Yield, Erase;
  }

  lemma CaseForms(ws: Whens, e: Tree)
    ensures Yield(Case(ws)) == [Token(KeywordCase, "CASE")] + YieldWhens(ws) + [Token(KeywordEnd, "END")]
    ensures Yield(CaseElse(ws, Token(KeywordElse, "ELSE"), e)) ==
            [Token(KeywordCase, "CASE")] + YieldWhens(ws) + [Token(KeywordElse, "ELSE")] + Yield(e)
            + [Token(KeywordEnd, "END")]
  {
    hide YieldWhens;
  }

  lemma ErasedCase(ws: Whens, e: Tree)
    ensures Erase(Case(ws)) == CaseExpression(EraseWhens(ws), None)
    ensures Erase(CaseElse(ws, Token(KeywordElse, "ELSE"), e)) == CaseExpression(EraseWhens(ws), Some(Erase(e)))
  {
    hide EraseWhens;
  }

  /** CASE has its branches in order, and ELSE for what none of them takes. */
  lemma CaseMeans(ws: Whens, e: Tree)
    requires CanonicalWhens(ws) && EndsBefore(ws, KeywordElse) && Canonical(e)
    ensures Answer(ReadExpression([Token(KeywordCase, "CASE")] + YieldWhens(ws) + [Token(KeywordEnd, "END")], 0, 0)) ==
            Some(CaseExpression(EraseWhens(ws), None))
    ensures Answer(ReadExpression([Token(KeywordCase, "CASE")] + YieldWhens(ws) + [Token(KeywordElse, "ELSE")]
                                  + Yield(e) + [Token(KeywordEnd, "END")], 0, 0)) ==
            Some(CaseExpression(EraseWhens(ws), Some(Erase(e))))
  {
    hide ReadExpression, Canonical, Yield, Erase, YieldWhens, EraseWhens, Answer, CanonicalWhens, EndsBefore;
    CaseFits(ws, e);
    CaseForms(ws, e);
    ErasedCase(ws, e);
    MeansAs(Yield(Case(ws)), Case(ws));
    MeansAs(Yield(CaseElse(ws, Token(KeywordElse, "ELSE"), e)), CaseElse(ws, Token(KeywordElse, "ELSE"), e));
  }

  lemma CaseFits(ws: Whens, e: Tree)
    requires CanonicalWhens(ws) && EndsBefore(ws, KeywordElse) && Canonical(e)
    ensures Canonical(Case(ws)) && Canonical(CaseElse(ws, Token(KeywordElse, "ELSE"), e))
  {
    hide CanonicalWhens, EndsBefore;
  }

  /** Parentheses group, and are left out. */
  lemma ParenthesesMean(t: Tree)
    requires Canonical(t)
    ensures Answer(ReadExpression([Token(ParenOpen, "(")] + Yield(t) + [Token(ParenClose, ")")], 0, 0)) ==
            Some(Erase(t))
  {
    hide ReadExpression, Canonical, Erase, Yield, Answer;
    ParenFits(t);
    MeansAs([Token(ParenOpen, "(")] + Yield(t) + [Token(ParenClose, ")")], Paren(t, Token(ParenClose, ")")));
  }

  lemma ParenFits(t: Tree)
    requires Canonical(t)
    ensures var p := Paren(t, Token(ParenClose, ")"));
            && Canonical(p) && Erase(p) == Erase(t)
            && Yield(p) == [Token(ParenOpen, "(")] + Yield(t) + [Token(ParenClose, ")")]
  {
    hide Canonical, Follows, IsOperator, Yield;
    Separators();
    SeparatorFollows(t, ParenClose);
    ClosingIsNoOperator();
    ParenCanonical(t);
    ParenYield(t);
  }

  lemma ClosingIsNoOperator()
    ensures !IsOperator(ParenClose)
  {
  }

  lemma ParenCanonical(t: Tree)
    requires Canonical(t) && Follows(t, ParenClose) && !IsOperator(ParenClose)
    ensures Canonical(Paren(t, Token(ParenClose, ")")))
  {
    hide Follows, IsOperator, IsConstant, IsAggregateName;
  }

  lemma ParenYield(t: Tree)
    ensures Yield(Paren(t, Token(ParenClose, ")"))) == [Token(ParenOpen, "(")] + Yield(t) + [Token(ParenClose, ")")]
  {
  }

  /** Names, with or without a table in front. */
  lemma NamesMean(x: string, table: string)
    ensures Answer(ReadExpression([Token(Identifier, x)], 0, 0)) == Some(IdentifierExpression(x, None))
    ensures Answer(ReadExpression([Token(Identifier, table), Token(Period, "."), Token(Identifier, x)], 0, 0)) ==
            Some(IdentifierExpression(x, Some(table)))
  {
    hide ReadExpression, Answer;
    var id, owner := Token(Identifier, x), Token(Identifier, table);
    MeansAs([id], Name(id));
    MeansAs([owner, Token(Period, "."), id], Qualified(owner, id));
  }

  /** `f` is `name`, which is in upper case, but for the case of its letters. */
  predicate IsWord(f: string, name: string) {
    |f| == |name| && forall i | 0 <= i < |f| :: f[i] == name[i] || f[i] as int == name[i] as int + 32
  }

  const AGGREGATES: set<string> := {"COUNT", "SUM", "MIN", "MAX", "AVG"}

  lemma {:induction false} SameWords(f: string, name: string)
    requires forall i | 0 <= i < |name| :: 'A' <= name[i] <= 'Z'
    ensures SameWord(f, name) <==> IsWord(f, name)
  {
  }

  lemma OneWord(f: string, g: string, h: string)
    requires IsWord(f, g) && IsWord(f, h)
    requires forall i | 0 <= i < |g| :: 'A' <= g[i] <= 'Z'
    requires forall i | 0 <= i < |h| :: 'A' <= h[i] <= 'Z'
    ensures g == h
  {
  }

  /** The aggregate functions are told apart by their names, whatever the case of the letters. */
  lemma AggregateNames(f: string)
    ensures IsAggregateName(f) <==> exists g :: g in AGGREGATES && IsWord(f, g)
    ensures forall g :: g in AGGREGATES && IsWord(f, g) ==> AggregateOf(f) == g
  {
    hide SameWord, IsWord;
    SameWords(f, "COUNT");
    SameWords(f, "SUM");
    SameWords(f, "MIN");
    SameWords(f, "MAX");
    SameWords(f, "AVG");
    forall g | g in AGGREGATES && IsWord(f, g) ensures AggregateOf(f) == g {
      assert IsWord(f, AggregateOf(f));
      OneWord(f, g, AggregateOf(f));
    }
  }

  /** A name and a list in parentheses is a call; with the name of an aggregate function and one item it is
      an aggregate, over a partition or not. */
  lemma CallsMean(f: string, args: seq<Tree>, arg: Tree, x: string)
    requires CanonicalList(args) && Canonical(arg)
    ensures (forall g | g in AGGREGATES :: !IsWord(f, g)) ==>
              Answer(ReadExpression([Token(Identifier, f), Token(ParenOpen, "(")] + YieldList(args)
                                    + [Token(ParenClose, ")")], 0, 0)) == Some(Function(f, EraseList(args)))
    ensures forall g | g in AGGREGATES && IsWord(f, g) ::
              && Answer(ReadExpression([Token(Identifier, f), Token(ParenOpen, "(")] + Yield(arg)
                                       + [Token(ParenClose, ")")], 0, 0))
                 == Some(AggregateFunction(g, Erase(arg), None))
              && Answer(ReadExpression([Token(Identifier, f), Token(ParenOpen, "(")] + Yield(arg)
                                       + [Token(ParenClose, ")"), Token(KeywordOver, "OVER"), Token(ParenOpen, "("),
                                          Token(KeywordPartition, "PARTITION"), Token(KeywordBy, "BY"),
                                          Token(Identifier, x), Token(ParenClose, ")")], 0, 0))
                 == Some(AggregateFunction(g, Erase(arg), Some(x)))
  {
    hide ReadExpression, Answer, Canonical, Erase, Yield, IsAggregateName, AggregateOf, YieldList, EraseList;
    AggregateNames(f);
    if IsAggregateName(f) {
      AggregateFits(f, arg, x);
      AggregateErased(f, arg, x);
      AggregateYield(f, arg);
      OverYield(f, arg, x);
      MeansAs(Yield(Aggregate(Token(Identifier, f), arg)), Aggregate(Token(Identifier, f), arg));
      var over := AggregateOver(Token(Identifier, f), arg, Token(Identifier, x));
      MeansAs(Yield(over), over);
    } else {
      CallFits(f, args);
      MeansAs(Yield(Call(Token(Identifier, f), args)), Call(Token(Identifier, f), args));
    }
  }

  lemma CallFits(f: string, args: seq<Tree>)
    requires !IsAggregateName(f) && CanonicalList(args)
    ensures Canonical(Call(Token(Identifier, f), args))
    ensures Erase(Call(Token(Identifier, f), args)) == Function(f, EraseList(args))
    ensures Yield(Call(Token(Identifier, f), args)) ==
            [Token(Identifier, f), Token(ParenOpen, "(")] + YieldList(args) + [Token(ParenClose, ")")]
  {
    hide Canonical, Erase, IsAggregateName;
    CallCanonical(f, args);
    CallErased(f, args);
  }

  lemma CallCanonical(f: string, args: seq<Tree>)
    requires !IsAggregateName(f) && CanonicalList(args)
    ensures Canonical(Call(Token(Identifier, f), args))
  {
    hide IsAggregateName, CanonicalList;
  }

  lemma CallErased(f: string, args: seq<Tree>)
    ensures Erase(Call(Token(Identifier, f), args)) == Function(f, EraseList(args))
  {
    hide EraseList;
  }

  lemma AggregateFits(f: string, arg: Tree, x: string)
    requires IsAggregateName(f) && Canonical(arg)
    ensures Canonical(Aggregate(Token(Identifier, f), arg))
    ensures Canonical(AggregateOver(Token(Identifier, f), arg, Token(Identifier, x)))
  {
    hide IsAggregateName;
  }

  lemma AggregateErased(f: string, arg: Tree, x: string)
    ensures Erase(Aggregate(Token(Identifier, f), arg)) == AggregateFunction(AggregateOf(f), Erase(arg), None)
    ensures Erase(AggregateOver(Token(Identifier, f), arg, Token(Identifier, x))) ==
            AggregateFunction(AggregateOf(f), Erase(arg), Some(x))
  {
    hide AggregateOf;
  }

  lemma AggregateYield(f: string, arg: Tree)
    ensures Yield(Aggregate(Token(Identifier, f), arg)) ==
            [Token(Identifier, f), Token(ParenOpen, "(")] + Yield(arg) + [Token(ParenClose, ")")]
  {
  }

  lemma OverYield(f: string, arg: Tree, x: string)
    ensures Yield(AggregateOver(Token(Identifier, f), arg, Token(Identifier, x))) ==
            [Token(Identifier, f), Token(ParenOpen, "(")] + Yield(arg)
            + [Token(ParenClose, ")"), Token(KeywordOver, "OVER"), Token(ParenOpen, "("),
               Token(KeywordPartition, "PARTITION"), Token(KeywordBy, "BY"), Token(Identifier, x),
               Token(ParenClose, ")")]
  {
    hide OverClause, Yield;
    OverTokens(x);
    AggregateYield(f, arg);
    OverBehind(f, arg, x);
  }

  lemma OverTokens(x: string)
    ensures [Token(ParenClose, ")")] + OverClause(Token(Identifier, x)) ==
            [Token(ParenClose, ")"), Token(KeywordOver, "OVER"), Token(ParenOpen, "("),
             Token(KeywordPartition, "PARTITION"), Token(KeywordBy, "BY"), Token(Identifier, x), Token(ParenClose, ")")]
  {
  }

  lemma OverBehind(f: string, arg: Tree, x: string)
    ensures Yield(AggregateOver(Token(Identifier, f), arg, Token(Identifier, x))) ==
            Yield(Aggregate(Token(Identifier, f), arg)) + OverClause(Token(Identifier, x))
  {
    hide OverClause, Fixed;
  }

  /** Literals; an integer beyond the range of an int and a text that is no date are refused. */
  lemma LiteralsMean(s: string)
    ensures Answer(ReadExpression([Token(KeywordNull, "NULL")], 0, 0)) == Some(LiteralExpression(NullLiteral))
    ensures Answer(ReadExpression([Token(Bool, s)], 0, 0)) == Some(LiteralExpression(BoolLiteral(s == "TRUE")))
    ensures Answer(ReadExpression([Token(String, s)], 0, 0)) == Some(LiteralExpression(StringLiteral(s)))
    ensures Answer(ReadExpression([Token(Float, s)], 0, 0)) == Some(LiteralExpression(FloatLiteral(s)))
    ensures Answer(ReadExpression([Token(Int, s)], 0, 0)) ==
            if s != "" && IsDigits(s) && Number(s) < 0x8000_0000 then Some(LiteralExpression(IntLiteral(Number(s))))
            else None
    ensures Answer(ReadExpression([Token(Date, s)], 0, 0)) ==
            if IsDate(s) then Some(LiteralExpression(DateLiteral(s))) else None
  {
    hide ReadExpression, IsDate, IsDigits, Answer, Number, IsConstant, LiteralOf;
    LiteralKinds(s);
    CheckedLiterals(s);
    OneLiteral(Token(KeywordNull, "NULL"));
    OneLiteral(Token(Bool, s));
    OneLiteral(Token(String, s));
    OneLiteral(Token(Float, s));
    OneLiteral(Token(Int, s));
    OneLiteral(Token(Date, s));
  }

  lemma LiteralKinds(s: string)
    ensures IsConstant(Token(KeywordNull, "NULL")) && LiteralOf(Token(KeywordNull, "NULL")) == NullLiteral
    ensures IsConstant(Token(Bool, s)) && LiteralOf(Token(Bool, s)) == BoolLiteral(s == "TRUE")
    ensures IsConstant(Token(String, s)) && LiteralOf(Token(String, s)) == StringLiteral(s)
    ensures IsConstant(Token(Float, s)) && LiteralOf(Token(Float, s)) == FloatLiteral(s)
  {
  }

  lemma CheckedLiterals(s: string)
    ensures IsConstant(Token(Date, s)) <==> IsDate(s)
    ensures LiteralOf(Token(Date, s)) == DateLiteral(s)
    ensures IsConstant(Token(Int, s)) <==> s != "" && IsDigits(s) && Number(s) < 0x8000_0000
    ensures IsDigits(s) ==> LiteralOf(Token(Int, s)) == IntLiteral(Number(s))
  {
    hide IsDate, IsDigits, Number;
  }

  lemma OneLiteral(t: Token)
    requires IsLiteral(t.kind)
    ensures Answer(ReadExpression([t], 0, 0)) ==
            if IsConstant(t) then Some(LiteralExpression(LiteralOf(t))) else None
  {
    hide IsConstant, LiteralOf;
    if IsConstant(t) {
      MeansAs([t], Constant(t));
    }
  }
}
