/** Which operator takes an operand that stands between two, by the kinds of the tokens
    (db/sql/Parser.cpp:890-907, 1091-1128, 1250-1336). */
module OperatorBinding {
  import opened Tokens
  import opened Grammar
  import opened Reading
  import opened Completeness
  import opened PrecedenceTrees

  /** The infix operators, the tightest first. */
  const LEVELS: seq<set<Kind>> := [
    {Asterisk}, {OpEqual, OpNotEqual, OpGreater, OpLess, KeywordLike, KeywordMatch}, {KeywordAnd}, {KeywordOr},
    {OpMul, OpDiv}, {OpAdd, OpSub}
  ]

  /** Levels 0 and 1 are tighter than BETWEEN, IN and IS; the others are not. */
  lemma LevelFacts(i: nat, k: Kind)
    requires i < |LEVELS| && k in LEVELS[i]
    ensures IsInfixOperator(k) && i < 6 && Precedence(k) == [100000, 500, 150, 100, 15, 10][i]
    ensures if i <= 1 then 500 <= Precedence(k) < LOOSE else 0 < Precedence(k) <= 150
  {
    if i == 0 {
      assert k == Asterisk;
    } else if i == 1 {
      assert LEVELS[i] == {OpEqual, OpNotEqual, OpGreater, OpLess, KeywordLike, KeywordMatch};
    } else if i == 2 {
      assert k == KeywordAnd;
    } else if i == 3 {
      assert k == KeywordOr;
    } else if i == 4 {
      assert k == OpMul || k == OpDiv;
    } else {
      assert k == OpAdd || k == OpSub;
    }
  }

  /** Of two infix operators the tighter one takes the middle operand, and of two on one level the left one. */
  lemma TighterBinds(a: Tree, p: Token, i: nat, b: Tree, q: Token, j: nat, c: Tree)
    requires IsAtom(a) && IsAtom(b) && IsAtom(c)
    requires i < |LEVELS| && p.kind in LEVELS[i] && j < |LEVELS| && q.kind in LEVELS[j]
    ensures var ts := Yield(a) + [p] + Yield(b) + [q] + Yield(c);
            ReadExpression(ts, 0, 0) ==
            Ok(if j < i then Infix(a, p, Infix(b, q, c)) else Infix(Infix(a, p, b), q, c), |ts|)
  {
    hide ReadExpression, Yield, Precedence, IsAtom;
    LevelFacts(i, p.kind);
    LevelFacts(j, q.kind);
    TwoOperators(Yield(a) + [p] + Yield(b) + [q] + Yield(c), a, p, b, q, c);
  }

  /** A canonical tree is what its tokens are read as. */
  lemma ReadAs(ts: seq<Token>, t: Tree)
    requires Canonical(t) && Yield(t) == ts
    ensures ReadExpression(ts, 0, 0) == Ok(t, |ts|)
  {
    hide ReadExpression, Canonical, Yield;
    assert Stand(ts, 0, Yield(t));
    ReadsWhole(ts, 0, t);
  }

  lemma AtomFits(t: Tree)
    requires IsAtom(t)
    ensures Canonical(t) && Edge(t) == LOOSE && Reach(t) == LOOSE
  {
    hide Canonical, Precedence;
  }

  lemma InfixFits(left: Tree, op: Token, right: Tree)
    requires IsInfixOperator(op.kind) && Canonical(left) && Canonical(right)
    requires Precedence(op.kind) <= Reach(left) && Precedence(op.kind) < Edge(right)
    ensures var t := Infix(left, op, right);
            && Canonical(t) && Edge(t) == Min(Precedence(op.kind), Edge(left))
            && Reach(t) == Min(Precedence(op.kind), Reach(right))
            && Yield(t) == Yield(left) + [op] + Yield(right)
  {
    hide Precedence, IsOperator;
    NeverGluedByOperator(left, op.kind);
  }

  const IS_NULL: seq<Token> := [Token(KeywordIs, "IS"), Token(KeywordNull, "NULL")]

  const IS_NOT_NULL: seq<Token> := [Token(KeywordIs, "IS"), Token(KeywordNot, "NOT"), Token(KeywordNull, "NULL")]

  lemma IsFits(left: Tree, negated: bool)
    requires Canonical(left) && 500 <= Reach(left)
    ensures var t := Is(left, negated);
            && Canonical(t) && Edge(t) == Min(500, Edge(left)) && Reach(t) == LOOSE
            && Yield(t) == Yield(left) + if negated then IS_NOT_NULL else IS_NULL
  {
    NeverGluedByOperator(left, KeywordIs);
  }

  lemma BetweenFits(left: Tree, low: Tree, high: Tree)
    requires Canonical(left) && Canonical(low) && Canonical(high)
    requires 200 <= Reach(left) && 201 < Edge(low) && 150 <= Reach(low) && 201 < Edge(high)
    ensures var t := Between(left, low, high);
            && Canonical(t) && Edge(t) == Min(200, Edge(left)) && Reach(t) == Min(201, Reach(high))
            && Yield(t) == Yield(left) + [Token(KeywordBetween, "BETWEEN")] + Yield(low) + [Token(KeywordAnd, "AND")]
                           + Yield(high)
  {
    NeverGluedByOperator(left, KeywordBetween);
    NeverGluedByOperator(low, KeywordAnd);
  }

  lemma InFits(left: Tree, args: seq<Tree>)
    requires Canonical(left) && 200 <= Reach(left) && args != [] && CanonicalList(args)
    ensures var t := In(left, args);
            && Canonical(t) && Edge(t) == Min(200, Edge(left)) && Reach(t) == LOOSE
            && Yield(t) == Yield(left) + [Token(KeywordIn, "IN"), Token(ParenOpen, "(")] + YieldList(args)
                           + [Token(ParenClose, ")")]
  {
    hide Yield, Precedence, IsOperator;
    InLevel();
    NeverGluedByOperator(left, KeywordIn);
    InYield(left, args);
  }

  lemma InLevel()
    ensures Precedence(KeywordIn) == 200 && IsOperator(KeywordIn)
  {
  }

  lemma InYield(left: Tree, args: seq<Tree>)
    ensures Yield(In(left, args)) == Yield(left) + [Token(KeywordIn, "IN"), Token(ParenOpen, "(")] + YieldList(args)
                                     + [Token(ParenClose, ")")]
  {
  }

  lemma MinusFits(operand: Tree)
    requires Canonical(operand) && 501 < Edge(operand)
    ensures var t := Minus(operand);
            && Canonical(t) && Edge(t) == LOOSE && Reach(t) == Min(501, Reach(operand))
            && Yield(t) == [Token(OpSub, "-")] + Yield(operand)
  {
  }

  // ---- Every two of them ----

  lemma ComparisonThenIs(a: Tree, p: Token, b: Tree)
    requires IsAtom(a) && IsAtom(b)
    requires IsInfixOperator(p.kind) && 500 <= Precedence(p.kind) < LOOSE
    ensures var ts := Yield(a) + [p] + Yield(b) + IS_NULL;
            ReadExpression(ts, 0, 0) == Ok(Is(Infix(a, p, b), false), |ts|)
  {
    hide ReadExpression, IsAtom, LEVELS, Canonical, Edge, Reach, Precedence, Yield, IsInfixOperator;
    AtomFits(a);
    AtomFits(b);
    InfixFits(a, p, b);
    IsFits(Infix(a, p, b), false);
    ReadAs(Yield(a) + [p] + Yield(b) + IS_NULL, Is(Infix(a, p, b), false));
  }

  lemma OtherThenIs(a: Tree, p: Token, b: Tree)
    requires IsAtom(a) && IsAtom(b)
    requires IsInfixOperator(p.kind) && Precedence(p.kind) <= 150
    ensures var ts := Yield(a) + [p] + Yield(b) + IS_NULL;
            ReadExpression(ts, 0, 0) == Ok(Infix(a, p, Is(b, false)), |ts|)
  {
    hide ReadExpression, IsAtom, LEVELS, Canonical, Edge, Reach, Precedence, Yield, IsInfixOperator;
    AtomFits(a);
    AtomFits(b);
    IsFits(b, false);
    InfixFits(a, p, Is(b, false));
    ReadAs(Yield(a) + [p] + Yield(b) + IS_NULL, Infix(a, p, Is(b, false)));
  }

  lemma IsThenAny(a: Tree, p: Token, b: Tree)
    requires IsAtom(a) && IsAtom(b)
    requires IsInfixOperator(p.kind) && Precedence(p.kind) < LOOSE
    ensures var ts := Yield(a) + IS_NULL + [p] + Yield(b);
            ReadExpression(ts, 0, 0) == Ok(Infix(Is(a, false), p, b), |ts|)
  {
    hide ReadExpression, IsAtom, LEVELS, Canonical, Edge, Reach, Precedence, Yield, IsInfixOperator;
    AtomFits(a);
    AtomFits(b);
    IsFits(a, false);
    InfixFits(Is(a, false), p, b);
    ReadAs(Yield(a) + IS_NULL + [p] + Yield(b), Infix(Is(a, false), p, b));
  }

  /** IS leaves a comparison in front of it whole, and takes the right operand of any other operator. */
  lemma IsBinds(a: Tree, p: Token, i: nat, b: Tree)
    requires IsAtom(a) && IsAtom(b) && i < |LEVELS| && p.kind in LEVELS[i]
    ensures var ts := Yield(a) + [p] + Yield(b) + IS_NULL;
            ReadExpression(ts, 0, 0) ==
            Ok(if i <= 1 then Is(Infix(a, p, b), false) else Infix(a, p, Is(b, false)), |ts|)
    ensures var ts := Yield(a) + IS_NULL + [p] + Yield(b);
            ReadExpression(ts, 0, 0) == Ok(Infix(Is(a, false), p, b), |ts|)
  {
    hide ReadExpression, IsAtom, LEVELS, Canonical, Edge, Reach, Precedence, Yield, IsInfixOperator;
    LevelFacts(i, p.kind);
    if i <= 1 {
      ComparisonThenIs(a, p, b);
    } else {
      OtherThenIs(a, p, b);
    }
    IsThenAny(a, p, b);
  }

  lemma ComparisonThenBetween(a: Tree, p: Token, b: Tree, c: Tree, d: Tree)
    requires IsAtom(a) && IsAtom(b) && IsAtom(c) && IsAtom(d)
    requires IsInfixOperator(p.kind) && 500 <= Precedence(p.kind) < LOOSE
    ensures var ts := Yield(a) + [p] + Yield(b) + [Token(KeywordBetween, "BETWEEN")] + Yield(c)
                      + [Token(KeywordAnd, "AND")] + Yield(d);
            ReadExpression(ts, 0, 0) == Ok(Between(Infix(a, p, b), c, d), |ts|)
  {
    hide ReadExpression, IsAtom, LEVELS, Canonical, Edge, Reach, Precedence, Yield, IsInfixOperator;
    AtomFits(a);
    AtomFits(b);
    AtomFits(c);
    AtomFits(d);
    InfixFits(a, p, b);
    BetweenFits(Infix(a, p, b), c, d);
    ReadAs(Yield(a) + [p] + Yield(b) + [Token(KeywordBetween, "BETWEEN")] + Yield(c) + [Token(KeywordAnd, "AND")]
           + Yield(d), Between(Infix(a, p, b), c, d));
  }

  lemma OtherThenBetween(a: Tree, p: Token, b: Tree, c: Tree, d: Tree)
    requires IsAtom(a) && IsAtom(b) && IsAtom(c) && IsAtom(d)
    requires IsInfixOperator(p.kind) && Precedence(p.kind) <= 150
    ensures var ts := Yield(a) + [p] + Yield(b) + [Token(KeywordBetween, "BETWEEN")] + Yield(c)
                      + [Token(KeywordAnd, "AND")] + Yield(d);
            ReadExpression(ts, 0, 0) == Ok(Infix(a, p, Between(b, c, d)), |ts|)
  {
    hide ReadExpression, IsAtom, LEVELS, Canonical, Edge, Reach, Precedence, Yield, IsInfixOperator;
    AtomFits(a);
    AtomFits(b);
    AtomFits(c);
    AtomFits(d);
    BetweenFits(b, c, d);
    InfixFits(a, p, Between(b, c, d));
    ReadAs(Yield(a) + [p] + Yield(b) + [Token(KeywordBetween, "BETWEEN")] + Yield(c) + [Token(KeywordAnd, "AND")]
           + Yield(d), Infix(a, p, Between(b, c, d)));
  }

  lemma BetweenThenComparison(a: Tree, p: Token, b: Tree, c: Tree, d: Tree)
    requires IsAtom(a) && IsAtom(b) && IsAtom(c) && IsAtom(d)
    requires IsInfixOperator(p.kind) && 500 <= Precedence(p.kind) < LOOSE
    ensures var ts := Yield(a) + [Token(KeywordBetween, "BETWEEN")] + Yield(b) + [Token(KeywordAnd, "AND")]
                      + Yield(c) + [p] + Yield(d);
            ReadExpression(ts, 0, 0) == Ok(Between(a, b, Infix(c, p, d)), |ts|)
  {
    hide ReadExpression, IsAtom, LEVELS, Canonical, Edge, Reach, Precedence, Yield, IsInfixOperator;
    AtomFits(a);
    AtomFits(b);
    AtomFits(c);
    AtomFits(d);
    InfixFits(c, p, d);
    BetweenFits(a, b, Infix(c, p, d));
    ReadAs(Yield(a) + [Token(KeywordBetween, "BETWEEN")] + Yield(b) + [Token(KeywordAnd, "AND")] + Yield(c) + [p]
           + Yield(d), Between(a, b, Infix(c, p, d)));
  }

  lemma BetweenThenOther(a: Tree, p: Token, b: Tree, c: Tree, d: Tree)
    requires IsAtom(a) && IsAtom(b) && IsAtom(c) && IsAtom(d)
    requires IsInfixOperator(p.kind) && Precedence(p.kind) <= 150
    ensures var ts := Yield(a) + [Token(KeywordBetween, "BETWEEN")] + Yield(b) + [Token(KeywordAnd, "AND")]
                      + Yield(c) + [p] + Yield(d);
            ReadExpression(ts, 0, 0) == Ok(Infix(Between(a, b, c), p, d), |ts|)
  {
    hide ReadExpression, IsAtom, LEVELS, Canonical, Edge, Reach, Precedence, Yield, IsInfixOperator;
    AtomFits(a);
    AtomFits(b);
    AtomFits(c);
    AtomFits(d);
    BetweenFits(a, b, c);
    InfixFits(Between(a, b, c), p, d);
    ReadAs(Yield(a) + [Token(KeywordBetween, "BETWEEN")] + Yield(b) + [Token(KeywordAnd, "AND")] + Yield(c) + [p]
           + Yield(d), Infix(Between(a, b, c), p, d));
  }

  lemma ComparisonInRange(a: Tree, p: Token, b: Tree, c: Tree, d: Tree)
    requires IsAtom(a) && IsAtom(b) && IsAtom(c) && IsAtom(d)
    requires IsInfixOperator(p.kind) && 500 <= Precedence(p.kind) < LOOSE
    ensures var ts := Yield(a) + [Token(KeywordBetween, "BETWEEN")] + Yield(b) + [p] + Yield(c)
                      + [Token(KeywordAnd, "AND")] + Yield(d);
            ReadExpression(ts, 0, 0) == Ok(Between(a, Infix(b, p, c), d), |ts|)
  {
    hide ReadExpression, IsAtom, LEVELS, Canonical, Edge, Reach, Precedence, Yield, IsInfixOperator;
    AtomFits(a);
    AtomFits(b);
    AtomFits(c);
    AtomFits(d);
    InfixFits(b, p, c);
    BetweenFits(a, Infix(b, p, c), d);
    ReadAs(Yield(a) + [Token(KeywordBetween, "BETWEEN")] + Yield(b) + [p] + Yield(c) + [Token(KeywordAnd, "AND")]
           + Yield(d), Between(a, Infix(b, p, c), d));
  }

  /** BETWEEN takes comparisons as its operands, and no looser operators. */
  lemma BetweenBinds(a: Tree, p: Token, i: nat, b: Tree, c: Tree, d: Tree)
    requires IsAtom(a) && IsAtom(b) && IsAtom(c) && IsAtom(d) && i < |LEVELS| && p.kind in LEVELS[i]
    ensures var ts := Yield(a) + [p] + Yield(b) + [Token(KeywordBetween, "BETWEEN")] + Yield(c)
                      + [Token(KeywordAnd, "AND")] + Yield(d);
            ReadExpression(ts, 0, 0) ==
            Ok(if i <= 1 then Between(Infix(a, p, b), c, d) else Infix(a, p, Between(b, c, d)), |ts|)
    ensures var ts := Yield(a) + [Token(KeywordBetween, "BETWEEN")] + Yield(b) + [Token(KeywordAnd, "AND")]
                      + Yield(c) + [p] + Yield(d);
            ReadExpression(ts, 0, 0) ==
            Ok(if i <= 1 then Between(a, b, Infix(c, p, d)) else Infix(Between(a, b, c), p, d), |ts|)
    ensures var ts := Yield(a) + [Token(KeywordBetween, "BETWEEN")] + Yield(b) + [p] + Yield(c)
                      + [Token(KeywordAnd, "AND")] + Yield(d);
            i <= 1 ==> ReadExpression(ts, 0, 0) == Ok(Between(a, Infix(b, p, c), d), |ts|)
  {
    hide ReadExpression, IsAtom, LEVELS, Canonical, Edge, Reach, Precedence, Yield, IsInfixOperator;
    LevelFacts(i, p.kind);
    if i <= 1 {
      ComparisonThenBetween(a, p, b, c, d);
      BetweenThenComparison(a, p, b, c, d);
      ComparisonInRange(a, p, b, c, d);
    } else {
      OtherThenBetween(a, p, b, c, d);
      BetweenThenOther(a, p, b, c, d);
    }
  }

  lemma ComparisonThenIn(a: Tree, p: Token, b: Tree, args: seq<Tree>)
    requires IsAtom(a) && IsAtom(b)
    requires args != [] && CanonicalList(args)
    requires IsInfixOperator(p.kind) && 500 <= Precedence(p.kind) < LOOSE
    ensures var ts := Yield(a) + [p] + Yield(b) + [Token(KeywordIn, "IN"), Token(ParenOpen, "(")] + YieldList(args)
                      + [Token(ParenClose, ")")];
            ReadExpression(ts, 0, 0) == Ok(In(Infix(a, p, b), args), |ts|)
  {
    hide ReadExpression, IsAtom, LEVELS, Canonical, Edge, Reach, Precedence, Yield, IsInfixOperator;
    AtomFits(a);
    AtomFits(b);
    InfixFits(a, p, b);
    InFits(Infix(a, p, b), args);
    ReadAs(Yield(a) + [p] + Yield(b) + [Token(KeywordIn, "IN"), Token(ParenOpen, "(")] + YieldList(args)
           + [Token(ParenClose, ")")], In(Infix(a, p, b), args));
  }

  lemma OtherThenIn(a: Tree, p: Token, b: Tree, args: seq<Tree>)
    requires IsAtom(a) && IsAtom(b)
    requires args != [] && CanonicalList(args)
    requires IsInfixOperator(p.kind) && Precedence(p.kind) <= 150
    ensures var ts := Yield(a) + [p] + Yield(b) + [Token(KeywordIn, "IN"), Token(ParenOpen, "(")] + YieldList(args)
                      + [Token(ParenClose, ")")];
            ReadExpression(ts, 0, 0) == Ok(Infix(a, p, In(b, args)), |ts|)
  {
    hide ReadExpression, IsAtom, LEVELS, Canonical, Edge, Reach, Precedence, Yield, IsInfixOperator;
    AtomFits(a);
    AtomFits(b);
    InFits(b, args);
    InfixFits(a, p, In(b, args));
    ReadAs(Yield(a) + [p] + Yield(b) + [Token(KeywordIn, "IN"), Token(ParenOpen, "(")] + YieldList(args)
           + [Token(ParenClose, ")")], Infix(a, p, In(b, args)));
  }

  lemma InThenAny(a: Tree, p: Token, b: Tree, args: seq<Tree>)
    requires IsAtom(a) && IsAtom(b)
    requires args != [] && CanonicalList(args)
    requires IsInfixOperator(p.kind) && Precedence(p.kind) < LOOSE
    ensures var ts := Yield(a) + [Token(KeywordIn, "IN"), Token(ParenOpen, "(")] + YieldList(args)
                      + [Token(ParenClose, ")")] + [p] + Yield(b);
            ReadExpression(ts, 0, 0) == Ok(Infix(In(a, args), p, b), |ts|)
  {
    hide ReadExpression, IsAtom, LEVELS, Canonical, Edge, Reach, Precedence, Yield, IsInfixOperator;
    AtomFits(a);
    AtomFits(b);
    InFits(a, args);
    InfixFits(In(a, args), p, b);
    ReadAs(Yield(a) + [Token(KeywordIn, "IN"), Token(ParenOpen, "(")] + YieldList(args) + [Token(ParenClose, ")")]
           + [p] + Yield(b), Infix(In(a, args), p, b));
  }

  /** IN leaves a comparison in front of it whole, and takes the right operand of any other operator. */
  lemma InBinds(a: Tree, p: Token, i: nat, b: Tree, args: seq<Tree>)
    requires IsAtom(a) && IsAtom(b) && i < |LEVELS| && p.kind in LEVELS[i] && args != [] && CanonicalList(args)
    ensures var ts := Yield(a) + [p] + Yield(b) + [Token(KeywordIn, "IN"), Token(ParenOpen, "(")] + YieldList(args)
                      + [Token(ParenClose, ")")];
            ReadExpression(ts, 0, 0) == Ok(if i <= 1 then In(Infix(a, p, b), args) else Infix(a, p, In(b, args)), |ts|)
    ensures var ts := Yield(a) + [Token(KeywordIn, "IN"), Token(ParenOpen, "(")] + YieldList(args)
                      + [Token(ParenClose, ")")] + [p] + Yield(b);
            ReadExpression(ts, 0, 0) == Ok(Infix(In(a, args), p, b), |ts|)
  {
    hide ReadExpression, IsAtom, LEVELS, Canonical, Edge, Reach, Precedence, Yield, IsInfixOperator;
    LevelFacts(i, p.kind);
    if i <= 1 {
      ComparisonThenIn(a, p, b, args);
    } else {
      OtherThenIn(a, p, b, args);
    }
    InThenAny(a, p, b, args);
  }

  lemma MinusThenAsterisk(a: Tree, p: Token, b: Tree)
    requires IsAtom(a) && IsAtom(b)
    requires IsInfixOperator(p.kind) && 501 < Precedence(p.kind) < LOOSE
    ensures var ts := [Token(OpSub, "-")] + Yield(a) + [p] + Yield(b);
            ReadExpression(ts, 0, 0) == Ok(Minus(Infix(a, p, b)), |ts|)
  {
    hide ReadExpression, IsAtom, LEVELS, Canonical, Edge, Reach, Precedence, Yield, IsInfixOperator;
    AtomFits(a);
    AtomFits(b);
    InfixFits(a, p, b);
    MinusFits(Infix(a, p, b));
    ReadAs([Token(OpSub, "-")] + Yield(a) + [p] + Yield(b), Minus(Infix(a, p, b)));
  }

  lemma MinusThenOther(a: Tree, p: Token, b: Tree)
    requires IsAtom(a) && IsAtom(b)
    requires IsInfixOperator(p.kind) && Precedence(p.kind) <= 500
    ensures var ts := [Token(OpSub, "-")] + Yield(a) + [p] + Yield(b);
            ReadExpression(ts, 0, 0) == Ok(Infix(Minus(a), p, b), |ts|)
  {
    hide ReadExpression, IsAtom, LEVELS, Canonical, Edge, Reach, Precedence, Yield, IsInfixOperator;
    AtomFits(a);
    AtomFits(b);
    MinusFits(a);
    InfixFits(Minus(a), p, b);
    ReadAs([Token(OpSub, "-")] + Yield(a) + [p] + Yield(b), Infix(Minus(a), p, b));
  }

  lemma AnyThenMinus(a: Tree, p: Token, b: Tree)
    requires IsAtom(a) && IsAtom(b)
    requires IsInfixOperator(p.kind) && Precedence(p.kind) < LOOSE
    ensures var ts := Yield(a) + [p] + [Token(OpSub, "-")] + Yield(b);
            ReadExpression(ts, 0, 0) == Ok(Infix(a, p, Minus(b)), |ts|)
  {
    hide ReadExpression, IsAtom, LEVELS, Canonical, Edge, Reach, Precedence, Yield, IsInfixOperator;
    AtomFits(a);
    AtomFits(b);
    MinusFits(b);
    InfixFits(a, p, Minus(b));
    ReadAs(Yield(a) + [p] + [Token(OpSub, "-")] + Yield(b), Infix(a, p, Minus(b)));
  }

  lemma MinusThenIs(a: Tree)
    requires IsAtom(a)
    ensures var ts := [Token(OpSub, "-")] + Yield(a) + IS_NULL;
            ReadExpression(ts, 0, 0) == Ok(Is(Minus(a), false), |ts|)
  {
    hide ReadExpression, IsAtom, LEVELS, Canonical, Edge, Reach, Precedence, Yield, IsInfixOperator;
    AtomFits(a);
    MinusFits(a);
    IsFits(Minus(a), false);
    ReadAs([Token(OpSub, "-")] + Yield(a) + IS_NULL, Is(Minus(a), false));
  }

  lemma MinusThenBetween(a: Tree, b: Tree, c: Tree)
    requires IsAtom(a) && IsAtom(b) && IsAtom(c)
    ensures var ts := [Token(OpSub, "-")] + Yield(a) + [Token(KeywordBetween, "BETWEEN")] + Yield(b)
                      + [Token(KeywordAnd, "AND")] + Yield(c);
            ReadExpression(ts, 0, 0) == Ok(Between(Minus(a), b, c), |ts|)
  {
    hide ReadExpression, IsAtom, LEVELS, Canonical, Edge, Reach, Precedence, Yield, IsInfixOperator;
    AtomFits(a);
    AtomFits(b);
    AtomFits(c);
    MinusFits(a);
    BetweenFits(Minus(a), b, c);
    ReadAs([Token(OpSub, "-")] + Yield(a) + [Token(KeywordBetween, "BETWEEN")] + Yield(b)
           + [Token(KeywordAnd, "AND")] + Yield(c), Between(Minus(a), b, c));
  }

  lemma MinusThenIn(a: Tree, args: seq<Tree>)
    requires IsAtom(a)
    requires args != [] && CanonicalList(args)
    ensures var ts := [Token(OpSub, "-")] + Yield(a) + [Token(KeywordIn, "IN"), Token(ParenOpen, "(")]
                      + YieldList(args) + [Token(ParenClose, ")")];
            ReadExpression(ts, 0, 0) == Ok(In(Minus(a), args), |ts|)
  {
    hide ReadExpression, IsAtom, LEVELS, Canonical, Edge, Reach, Precedence, Yield, IsInfixOperator;
    AtomFits(a);
    MinusFits(a);
    InFits(Minus(a), args);
    ReadAs([Token(OpSub, "-")] + Yield(a) + [Token(KeywordIn, "IN"), Token(ParenOpen, "(")] + YieldList(args)
           + [Token(ParenClose, ")")], In(Minus(a), args));
  }

  /** The sign belongs to one operand, or to a product written with an asterisk. */
  lemma MinusBinds(a: Tree, p: Token, i: nat, b: Tree, c: Tree, args: seq<Tree>)
    requires IsAtom(a) && IsAtom(b) && IsAtom(c) && i < |LEVELS| && p.kind in LEVELS[i]
    requires args != [] && CanonicalList(args)
    ensures var ts := [Token(OpSub, "-")] + Yield(a) + [p] + Yield(b);
            ReadExpression(ts, 0, 0) == Ok(if i == 0 then Minus(Infix(a, p, b)) else Infix(Minus(a), p, b), |ts|)
    ensures var ts := Yield(a) + [p] + [Token(OpSub, "-")] + Yield(b);
            ReadExpression(ts, 0, 0) == Ok(Infix(a, p, Minus(b)), |ts|)
    ensures var ts := [Token(OpSub, "-")] + Yield(a) + IS_NULL;
            ReadExpression(ts, 0, 0) == Ok(Is(Minus(a), false), |ts|)
    ensures var ts := [Token(OpSub, "-")] + Yield(a) + [Token(KeywordBetween, "BETWEEN")] + Yield(b)
                      + [Token(KeywordAnd, "AND")] + Yield(c);
            ReadExpression(ts, 0, 0) == Ok(Between(Minus(a), b, c), |ts|)
    ensures var ts := [Token(OpSub, "-")] + Yield(a) + [Token(KeywordIn, "IN"), Token(ParenOpen, "(")]
                      + YieldList(args) + [Token(ParenClose, ")")];
            ReadExpression(ts, 0, 0) == Ok(In(Minus(a), args), |ts|)
  {
    hide ReadExpression, IsAtom, LEVELS, Canonical, Edge, Reach, Precedence, Yield, IsInfixOperator;
    LevelFacts(i, p.kind);
    if i == 0 {
      MinusThenAsterisk(a, p, b);
    } else {
      MinusThenOther(a, p, b);
    }
    AnyThenMinus(a, p, b);
    MinusThenIs(a);
    MinusThenBetween(a, b, c);
    MinusThenIn(a, args);
  }

  lemma BetweenThenIs(a: Tree, b: Tree, c: Tree)
    requires IsAtom(a) && IsAtom(b) && IsAtom(c)
    ensures var ts := Yield(a) + [Token(KeywordBetween, "BETWEEN")] + Yield(b) + [Token(KeywordAnd, "AND")]
                      + Yield(c) + IS_NULL;
            ReadExpression(ts, 0, 0) == Ok(Between(a, b, Is(c, false)), |ts|)
  {
    hide ReadExpression, IsAtom, LEVELS, Canonical, Edge, Reach, Precedence, Yield, IsInfixOperator;
    AtomFits(a);
    AtomFits(b);
    AtomFits(c);
    IsFits(c, false);
    BetweenFits(a, b, Is(c, false));
    ReadAs(Yield(a) + [Token(KeywordBetween, "BETWEEN")] + Yield(b) + [Token(KeywordAnd, "AND")] + Yield(c)
           + IS_NULL, Between(a, b, Is(c, false)));
  }

  lemma BetweenThenIn(a: Tree, b: Tree, c: Tree, args: seq<Tree>)
    requires IsAtom(a) && IsAtom(b) && IsAtom(c)
    requires args != [] && CanonicalList(args)
    ensures var ts := Yield(a) + [Token(KeywordBetween, "BETWEEN")] + Yield(b) + [Token(KeywordAnd, "AND")]
                      + Yield(c) + [Token(KeywordIn, "IN"), Token(ParenOpen, "(")] + YieldList(args)
                      + [Token(ParenClose, ")")];
            ReadExpression(ts, 0, 0) == Ok(In(Between(a, b, c), args), |ts|)
  {
    hide ReadExpression, IsAtom, LEVELS, Canonical, Edge, Reach, Precedence, Yield, IsInfixOperator;
    AtomFits(a);
    AtomFits(b);
    AtomFits(c);
    BetweenFits(a, b, c);
    InFits(Between(a, b, c), args);
    ReadAs(Yield(a) + [Token(KeywordBetween, "BETWEEN")] + Yield(b) + [Token(KeywordAnd, "AND")] + Yield(c)
           + [Token(KeywordIn, "IN"), Token(ParenOpen, "(")] + YieldList(args) + [Token(ParenClose, ")")],
           In(Between(a, b, c), args));
  }

  lemma IsThenBetween(a: Tree, b: Tree, c: Tree)
    requires IsAtom(a) && IsAtom(b) && IsAtom(c)
    ensures var ts := Yield(a) + IS_NULL + [Token(KeywordBetween, "BETWEEN")] + Yield(b)
                      + [Token(KeywordAnd, "AND")] + Yield(c);
            ReadExpression(ts, 0, 0) == Ok(Between(Is(a, false), b, c), |ts|)
  {
    hide ReadExpression, IsAtom, LEVELS, Canonical, Edge, Reach, Precedence, Yield, IsInfixOperator;
    AtomFits(a);
    AtomFits(b);
    AtomFits(c);
    IsFits(a, false);
    BetweenFits(Is(a, false), b, c);
    ReadAs(Yield(a) + IS_NULL + [Token(KeywordBetween, "BETWEEN")] + Yield(b) + [Token(KeywordAnd, "AND")]
           + Yield(c), Between(Is(a, false), b, c));
  }

  lemma InThenBetween(a: Tree, b: Tree, c: Tree, args: seq<Tree>)
    requires IsAtom(a) && IsAtom(b) && IsAtom(c)
    requires args != [] && CanonicalList(args)
    ensures var ts := Yield(a) + [Token(KeywordIn, "IN"), Token(ParenOpen, "(")] + YieldList(args)
                      + [Token(ParenClose, ")")] + [Token(KeywordBetween, "BETWEEN")] + Yield(b)
                      + [Token(KeywordAnd, "AND")] + Yield(c);
            ReadExpression(ts, 0, 0) == Ok(Between(In(a, args), b, c), |ts|)
  {
    hide ReadExpression, IsAtom, LEVELS, Canonical, Edge, Reach, Precedence, Yield, IsInfixOperator;
    AtomFits(a);
    AtomFits(b);
    AtomFits(c);
    InFits(a, args);
    BetweenFits(In(a, args), b, c);
    ReadAs(Yield(a) + [Token(KeywordIn, "IN"), Token(ParenOpen, "(")] + YieldList(args) + [Token(ParenClose, ")")]
           + [Token(KeywordBetween, "BETWEEN")] + Yield(b) + [Token(KeywordAnd, "AND")] + Yield(c),
           Between(In(a, args), b, c));
  }

  /** IS takes the upper bound of a BETWEEN; otherwise what stands first is read first. */
  lemma KeywordsBind(a: Tree, b: Tree, c: Tree, args: seq<Tree>)
    requires IsAtom(a) && IsAtom(b) && IsAtom(c) && args != [] && CanonicalList(args)
    ensures var ts := Yield(a) + [Token(KeywordBetween, "BETWEEN")] + Yield(b) + [Token(KeywordAnd, "AND")]
                      + Yield(c) + IS_NULL;
            ReadExpression(ts, 0, 0) == Ok(Between(a, b, Is(c, false)), |ts|)
    ensures var ts := Yield(a) + [Token(KeywordBetween, "BETWEEN")] + Yield(b) + [Token(KeywordAnd, "AND")]
                      + Yield(c) + [Token(KeywordIn, "IN"), Token(ParenOpen, "(")] + YieldList(args)
                      + [Token(ParenClose, ")")];
            ReadExpression(ts, 0, 0) == Ok(In(Between(a, b, c), args), |ts|)
    ensures var ts := Yield(a) + IS_NULL + [Token(KeywordBetween, "BETWEEN")] + Yield(b)
                      + [Token(KeywordAnd, "AND")] + Yield(c);
            ReadExpression(ts, 0, 0) == Ok(Between(Is(a, false), b, c), |ts|)
    ensures var ts := Yield(a) + [Token(KeywordIn, "IN"), Token(ParenOpen, "(")] + YieldList(args)
                      + [Token(ParenClose, ")")] + [Token(KeywordBetween, "BETWEEN")] + Yield(b)
                      + [Token(KeywordAnd, "AND")] + Yield(c);
            ReadExpression(ts, 0, 0) == Ok(Between(In(a, args), b, c), |ts|)
  {
    hide ReadExpression, IsAtom, LEVELS, Canonical, Edge, Reach, Precedence, Yield, IsInfixOperator;
    BetweenThenIs(a, b, c);
    BetweenThenIn(a, b, c, args);
    IsThenBetween(a, b, c);
    InThenBetween(a, b, c, args);
  }
}
