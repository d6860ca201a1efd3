/** The trees the expression parser builds: exactly the canonical ones, one for each text, and for
    operands joined by operators the ones with the usual precedence order. */
module PrecedenceTrees {
  import opened Tokens
  import opened Grammar
  import opened Reading
  import opened Completeness
  import opened Soundness
  import opened Lexing

  /** Reading at `off` gives `t` and stops at `n` exactly if `t` is canonical, its tokens stand there,
      all its operators on the left edge are tighter than `min`, and the token at `n` neither belongs to
      `t` nor is an operator tighter than `min`. */
  lemma ReadsExactly(ts: seq<Token>, off: nat, min: nat, t: Tree, n: nat)
    requires Lexed(ts) && min < LOOSE
    ensures ReadExpression(ts, off, min) == Ok(t, n) <==> IsReading(ts, off, min, t, n)
  {
    hide ReadExpression, StandsAt, Yield;
    if ReadExpression(ts, off, min).Ok? {
      SoundExpression(ts, off, min);
    }
    if IsReading(ts, off, min, t, n) {
      ReadsAndStops(ts, off, min, t);
    }
  }

  /** No two canonical trees have the same tokens. */
  lemma OneTree(t: Tree, u: Tree)
    requires Canonical(t) && Canonical(u) && Yield(t) == Yield(u)
    ensures t == u
  {
    hide ReadExpression, Canonical, Yield;
    var ts := Yield(t);
    assert Stand(ts, 0, Yield(t)) && Stand(ts, 0, Yield(u));
    ReadsWhole(ts, 0, t);
    ReadsWhole(ts, 0, u);
  }

  /** The lexer spells fixed tokens as soundness asks for, so the above holds for every text. */
  lemma {:induction false} TextsAreLexed(s: string)
    ensures Lexed(Lex(s))
    decreases |s|
  {
    hide First, Spelling;
    if s == "" {
      NoSpelling();
    } else {
      FirstSize(s);
      FirstIsSpelled(s);
      TextsAreLexed(s[First(s).size..]);
    }
  }

  lemma FirstIsSpelled(s: string)
    requires s != ""
    ensures First(s).token.Some? ==> WellSpelled(First(s).token.value)
  {
    hide Spelling, SymbolOf, NumberLexeme, WordToken;
    WordIsSpelled(s[..Run(s, IsWordChar)]);
    SymbolIsSpelled(s[0]);
    NumberIsSpelled(s);
    OthersAreSpelled();
  }

  lemma WordIsSpelled(word: string)
    ensures WellSpelled(WordToken(word))
  {
  }

  lemma SymbolIsSpelled(c: char)
    ensures SymbolOf(c).Some? ==> WellSpelled(Token(SymbolOf(c).value, [c]))
  {
  }

  lemma NumberIsSpelled(s: string)
    ensures NumberLexeme(s).token.Some? && WellSpelled(NumberLexeme(s).token.value)
  {
  }

  lemma OthersAreSpelled()
    ensures WellSpelled(Token(OpSub, "-"))
    ensures !IsFixed(Identifier) && !IsFixed(OpNotEqual) && !IsFixed(Exclamation) && !IsFixed(String)
            && !IsFixed(Date) && !IsFixed(Garbage)
  {
  }

  // ---- Operands joined by infix operators and BETWEEN ----

  predicate IsAtom(t: Tree) {
    IsPrimary(t) && !t.Minus? && Canonical(t)
  }

  predicate IsPlain(t: Tree) {
    match t
    case Infix(left, op, right) => IsPlain(left) && IsInfixOperator(op.kind) && IsPlain(right)
    case Between(left, low, high) => IsPlain(left) && IsPlain(low) && IsPlain(high)
    case _ => IsAtom(t)
  }

  function RootPrecedence(t: Tree): nat {
    if IsPrimary(t) then LOOSE else Precedence(Root(t).kind)
  }

  /** Every left operand is at least as tight as its operator, every right operand tighter. */
  predicate Tight(t: Tree) {
    match t
    case Infix(left, op, right) =>
      && Tight(left) && Precedence(op.kind) <= RootPrecedence(left)
      && Tight(right) && Precedence(op.kind) < RootPrecedence(right)
    case Between(left, low, high) =>
      && Tight(left) && Precedence(KeywordBetween) <= RootPrecedence(left)
      && Tight(low) && Precedence(KeywordBetween) < RootPrecedence(low)
      && Tight(high) && Precedence(KeywordBetween) < RootPrecedence(high)
    case _ => true
  }

  lemma Levels(k: Kind)
    ensures Precedence(KeywordBetween) == RANGE - 1 && Precedence(KeywordAnd) < RANGE && Precedence(k) != RANGE
    ensures 0 < Precedence(k) < LOOSE
  {
  }

  /** What `CanonicalIsTight` says of one tree. */
  predicate Settled(t: Tree, k: Kind) {
    && (Canonical(t) <==> Tight(t))
    && (Tight(t) ==> Edge(t) == RootPrecedence(t) && (Follows(t, k) <==> Precedence(k) <= RootPrecedence(t)))
  }

  lemma InfixSettled(t: Tree, k: Kind)
    requires t.Infix? && IsInfixOperator(t.op.kind) && IsOperator(k)
    requires Settled(t.left, t.op.kind) && Settled(t.right, k)
    ensures Settled(t, k)
  {
    hide Precedence, IsOperator, Spelling;
    Levels(t.op.kind);
    Levels(k);
    NeverGluedByOperator(t, k);
    NeverGluedByOperator(t.right, k);
  }

  lemma BetweenSettled(t: Tree, k: Kind)
    requires t.Between? && IsOperator(k)
    requires Settled(t.left, KeywordBetween) && Settled(t.low, KeywordAnd) && Settled(t.high, k)
    ensures Settled(t, k)
  {
    hide Precedence, IsOperator, Spelling, Canonical, Tight, RootPrecedence, Edge, Reach, Glues;
    BetweenIsOperator();
    Levels(k);
    NeverGluedByOperator(t, k);
    NeverGluedByOperator(t.high, k);
    BetweenUnfolded(t);
    NoRangeRoot(t.low);
    NoRangeRoot(t.high);
  }

  /** The definitions, one level deep. */
  lemma BetweenUnfolded(t: Tree)
    requires t.Between?
    ensures Canonical(t) <==>
            && Canonical(t.left) && Follows(t.left, KeywordBetween)
            && Canonical(t.low) && Edge(t.low) > RANGE && Follows(t.low, KeywordAnd)
            && Canonical(t.high) && Edge(t.high) > RANGE
    ensures Tight(t) <==>
            && Tight(t.left) && RANGE - 1 <= RootPrecedence(t.left)
            && Tight(t.low) && RANGE - 1 < RootPrecedence(t.low)
            && Tight(t.high) && RANGE - 1 < RootPrecedence(t.high)
    ensures Edge(t) == Min(RANGE - 1, Edge(t.left)) && Reach(t) == Min(RANGE, Reach(t.high))
            && RootPrecedence(t) == RANGE - 1
  {
    hide IsOperator, Spelling, Follows, Glues;
  }

  lemma NoRangeRoot(t: Tree)
    ensures RootPrecedence(t) != RANGE
  {
  }

  /** For plain trees canonical means tight; and then the root decides which operators may precede
      and follow the tree. */
  lemma {:induction false} CanonicalIsTight(t: Tree, k: Kind)
    requires IsPlain(t) && IsOperator(k)
    ensures Canonical(t) <==> Tight(t)
    ensures Tight(t) ==> Edge(t) == RootPrecedence(t) && (Follows(t, k) <==> Precedence(k) <= RootPrecedence(t))
    decreases t
  {
    hide Precedence, IsOperator, Spelling, Canonical, Tight, Edge, Follows, RootPrecedence;
    match t {
      case Infix(left, op, right) =>
        CanonicalIsTight(left, op.kind);
        CanonicalIsTight(right, k);
        InfixSettled(t, k);
      case Between(left, low, high) =>
        BetweenIsOperator();
        CanonicalIsTight(left, KeywordBetween);
        CanonicalIsTight(low, KeywordAnd);
        CanonicalIsTight(high, k);
        BetweenSettled(t, k);
      case _ => AtomSettled(t, k);
    }
  }

  lemma AtomSettled(t: Tree, k: Kind)
    requires IsAtom(t) && IsOperator(k)
    ensures Settled(t, k)
  {
    hide Precedence, IsOperator, Spelling, Canonical, Glues;
    Levels(k);
    NeverGluedByOperator(t, k);
  }

  lemma BetweenIsOperator()
    ensures IsOperator(KeywordBetween) && IsOperator(KeywordAnd)
  {
  }

  lemma {:induction false} NeverGluedByOperator(t: Tree, k: Kind)
    requires IsOperator(k)
    ensures !Glues(t, k)
    decreases t
  {
    hide Precedence;
    match t
    case Minus(operand) => NeverGluedByOperator(operand, k);
    case Infix(_, _, right) => NeverGluedByOperator(right, k);
    case Between(_, _, high) => NeverGluedByOperator(high, k);
    case _ =>
  }

  /** The operators between the operands of a plain tree, from left to right. */
  function Operators(t: Tree): seq<Kind> {
    match t
    case Infix(left, op, right) => Operators(left) + [op.kind] + Operators(right)
    case Between(left, low, high) => Operators(left) + [KeywordBetween] + Operators(low) + Operators(high)
    case _ => []
  }

  /** A plain expression ends at the first operator that is not tighter than `min`: every operator in
      it is, and the one behind it (if there is one) is not. */
  lemma {:induction false} StopsAtFirst(ts: seq<Token>, off: nat, min: nat)
    requires Lexed(ts) && min < LOOSE && ReadExpression(ts, off, min).Ok?
    requires IsPlain(ReadExpression(ts, off, min).value)
    ensures var r := ReadExpression(ts, off, min);
            && (forall k | k in Operators(r.value) :: Precedence(k) > min)
            && (IsOperator(KindAt(ts, r.next)) ==> Precedence(KindAt(ts, r.next)) <= min)
  {
    hide ReadExpression, Yield, Precedence, IsOperator, Stand;
    var t := ReadExpression(ts, off, min).value;
    SoundExpression(ts, off, min);
    BetweenIsOperator();
    CanonicalIsTight(t, KeywordAnd);
    AllTighter(t, min);
  }

  lemma {:induction false} AllTighter(t: Tree, min: nat)
    requires IsPlain(t) && Tight(t) && RootPrecedence(t) > min
    ensures forall k | k in Operators(t) :: Precedence(k) > min
    decreases t
  {
    hide Precedence, IsOperator, Canonical;
    match t
    case Infix(left, _, right) =>
      AllTighter(left, min);
      AllTighter(right, min);
    case Between(left, low, high) =>
      AllTighter(left, min);
      AllTighter(low, min);
      AllTighter(high, min);
    case _ =>
  }

  /** Two operators between three operands: the second takes the middle operand exactly if it is
      tighter. So comparisons are tighter than arithmetic, `a + b = c` is `a + (b = c)`, and the
      asterisk is tighter than everything. */
  lemma TwoOperators(ts: seq<Token>, a: Tree, p: Token, b: Tree, q: Token, c: Tree)
    requires IsAtom(a) && IsAtom(b) && IsAtom(c) && IsInfixOperator(p.kind) && IsInfixOperator(q.kind)
    requires ts == Yield(a) + [p] + Yield(b) + [q] + Yield(c)
    ensures ReadExpression(ts, 0, 0) ==
            Ok(if Precedence(q.kind) > Precedence(p.kind) then Infix(a, p, Infix(b, q, c))
                else Infix(Infix(a, p, b), q, c), |ts|)
  {
    hide ReadExpression, Yield, Precedence, IsOperator, Canonical, Tight, RootPrecedence, IsAtom, IsPlain;
    TwoYields(a, p, b, q, c);
    TwoTight(a, p, b, q, c);
    if Precedence(q.kind) > Precedence(p.kind) {
      ReadsTight(Infix(a, p, Infix(b, q, c)));
    } else {
      ReadsTight(Infix(Infix(a, p, b), q, c));
    }
  }

  /** A tight tree is what its own text is read as. */
  lemma ReadsTight(t: Tree)
    requires IsPlain(t) && Tight(t)
    ensures ReadExpression(Yield(t), 0, 0) == Ok(t, |Yield(t)|)
  {
    hide ReadExpression, Yield, Canonical, Tight, IsPlain;
    var ts := Yield(t);
    BetweenIsOperator();
    CanonicalIsTight(t, KeywordAnd);
    assert Stand(ts, 0, Yield(t));
    ReadsWhole(ts, 0, t);
  }

  lemma TwoTight(a: Tree, p: Token, b: Tree, q: Token, c: Tree)
    requires IsAtom(a) && IsAtom(b) && IsAtom(c) && IsInfixOperator(p.kind) && IsInfixOperator(q.kind)
    ensures IsPlain(Infix(a, p, Infix(b, q, c))) && IsPlain(Infix(Infix(a, p, b), q, c))
    ensures Tight(Infix(a, p, Infix(b, q, c))) <==> Precedence(q.kind) > Precedence(p.kind)
    ensures Tight(Infix(Infix(a, p, b), q, c)) <==> Precedence(q.kind) <= Precedence(p.kind)
  {
    hide Precedence, IsOperator, Canonical;
    Levels(p.kind);
    Levels(q.kind);
    AtomPlain(a);
    AtomPlain(b);
    AtomPlain(c);
    assert IsPlain(Infix(a, p, b)) && IsPlain(Infix(b, q, c));
  }

  lemma AtomPlain(t: Tree)
    requires IsAtom(t)
    ensures IsPlain(t) && Tight(t) && RootPrecedence(t) == LOOSE
  {
    hide Canonical;
  }

  lemma TwoYields(a: Tree, p: Token, b: Tree, q: Token, c: Tree)
    ensures Yield(Infix(a, p, Infix(b, q, c))) == Yield(a) + [p] + Yield(b) + [q] + Yield(c)
    ensures Yield(Infix(Infix(a, p, b), q, c)) == Yield(a) + [p] + Yield(b) + [q] + Yield(c)
  {
    hide Yield;
    InfixYield(b, q, c);
    InfixYield(a, p, Infix(b, q, c));
    InfixYield(a, p, b);
    InfixYield(Infix(a, p, b), q, c);
    Regroup(Yield(a) + [p], Yield(b) + [q], Yield(b), [q], Yield(c));
  }

  lemma InfixYield(left: Tree, op: Token, right: Tree)
    ensures Yield(Infix(left, op, right)) == Yield(left) + [op] + Yield(right)
  {
  }

  lemma Regroup<T>(a: seq<T>, bq: seq<T>, b: seq<T>, q: seq<T>, c: seq<T>)
    requires bq == b + q
    ensures a + (bq + c) == a + b + q + c
  {
  }
}
