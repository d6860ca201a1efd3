/** What the expression parser reads is a canonical tree. */
module Soundness {
  import opened Tokens
  import opened Grammar
  import opened Reading
  import opened Completeness

  // ---- Soundness: what is read is a canonical tree ----

  /** Every fixed token is spelled as the lexer spells it. */
  ghost predicate Lexed(ts: seq<Token>) {
    forall i | 0 <= i < |ts| :: WellSpelled(ts[i])
  }

  lemma SpelledAt(ts: seq<Token>, i: nat, k: Kind)
    requires Lexed(ts) && KindAt(ts, i) == k && IsFixed(k)
    ensures TokenAt(ts, i) == Fixed(k)
  {
    hide Spelling;
    NoSpelling();
  }

  lemma NoSpelling()
    ensures !IsFixed(Eof)
  {
  }

  lemma FixedKinds()
    ensures IsFixed(KeywordAnd) && IsFixed(KeywordBetween) && IsFixed(KeywordBy) && IsFixed(KeywordCase)
            && IsFixed(KeywordEnd)
    ensures IsFixed(KeywordIn) && IsFixed(KeywordIs) && IsFixed(KeywordNot) && IsFixed(KeywordNull)
            && IsFixed(KeywordOver)
    ensures IsFixed(KeywordPartition) && IsFixed(KeywordThen) && IsFixed(KeywordWhen) && IsFixed(Comma)
            && IsFixed(OpSub)
    ensures IsFixed(ParenClose) && IsFixed(ParenOpen) && IsFixed(Period)
  {
  }

  /** `t` stands at `off` up to `n`, and nothing more of the input would be read with it. */
  ghost predicate IsReading(ts: seq<Token>, off: nat, min: nat, t: Tree, n: nat) {
    && StandsAt(ts, off, min, t) && n == off + |Yield(t)|
    && (IsOperator(KindAt(ts, n)) ==> Precedence(KindAt(ts, n)) <= min)
  }

  lemma {:induction false} SoundExpression(ts: seq<Token>, off: nat, min: nat)
    requires Lexed(ts) && ReadExpression(ts, off, min).Ok? && min < LOOSE
    ensures var r := ReadExpression(ts, off, min); IsReading(ts, off, min, r.value, r.next)
    decreases Left(ts, off), 3
  {
    hide ReadPrimary, ReadOperand, StandsAt, Precedence, IsOperator, Yield;
    SoundPrimary(ts, off, min);
    var r := ReadPrimary(ts, off);
    SoundOperand(ts, off, r.next, r.value, min);
  }

  lemma {:induction false} SoundOperand(ts: seq<Token>, start: nat, off: nat, lhs: Tree, min: nat)
    requires Lexed(ts) && StandsAt(ts, start, min, lhs) && off == start + |Yield(lhs)|
    requires ReadOperand(ts, off, lhs, min).Ok?
    ensures var r := ReadOperand(ts, off, lhs, min); IsReading(ts, start, min, r.value, r.next)
    decreases Left(ts, off), 2
  {
    hide ReadOperation, StandsAt, Precedence, IsOperator, Yield;
    var k := KindAt(ts, off);
    if IsOperator(k) && Precedence(k) > min {
      OperatorIsReal(ts, off);
      SoundOperation(ts, start, off, lhs, min);
      var r := ReadOperation(ts, off + 1, lhs, TokenAt(ts, off));
      SoundOperand(ts, start, r.next, r.value, min);
    }
  }

  lemma OperatorIsReal(ts: seq<Token>, off: nat)
    requires IsOperator(KindAt(ts, off))
    ensures off < |ts|
  {
  }

  /** An operator and its right operand, read behind `lhs`. */
  lemma {:induction false} SoundOperation(ts: seq<Token>, start: nat, off: nat, lhs: Tree, min: nat)
    requires Lexed(ts) && StandsAt(ts, start, min, lhs) && off == start + |Yield(lhs)|
    requires IsOperator(KindAt(ts, off)) && Precedence(KindAt(ts, off)) > min
    requires ReadOperation(ts, off + 1, lhs, TokenAt(ts, off)).Ok?
    ensures var r := ReadOperation(ts, off + 1, lhs, TokenAt(ts, off));
            StandsAt(ts, start, min, r.value) && r.next == start + |Yield(r.value)|
    decreases Left(ts, off + 1), 6
  {
    hide StandsAt, Precedence, IsOperator, Yield, Spelling, IsFixed, ReadBetween, ReadIn, ReadIs, ReadExpression;
    var k := KindAt(ts, off);
    FixedKinds();
    if k.KeywordBetween? {
      SpelledAt(ts, off, k);
      SoundBetween(ts, start, off, lhs, min);
    } else if k.KeywordIn? {
      SpelledAt(ts, off, k);
      SoundIn(ts, start, off, lhs, min);
    } else if k.KeywordIs? {
      SpelledAt(ts, off, k);
      SoundIs(ts, start, off, lhs, min);
    } else {
      SoundInfix(ts, start, off, lhs, min);
    }
  }

  lemma MakeInfix(t: Tree, min: nat, k: Kind)
    requires t.Infix? && IsInfixOperator(t.op.kind)
    requires Canonical(t.left) && Follows(t.left, t.op.kind) && Edge(t.left) > min && Precedence(t.op.kind) > min
    requires Canonical(t.right) && Edge(t.right) > Precedence(t.op.kind)
    requires Follows(t.right, k) && (IsOperator(k) ==> Precedence(k) <= Precedence(t.op.kind))
    ensures Canonical(t) && Edge(t) > min && Follows(t, k)
    ensures Yield(t) == Yield(t.left) + [t.op] + Yield(t.right)
  {
    hide Precedence, IsOperator, Spelling;
  }

  lemma {:induction false} SoundInfix(ts: seq<Token>, start: nat, off: nat, lhs: Tree, min: nat)
    requires Lexed(ts) && StandsAt(ts, start, min, lhs) && off == start + |Yield(lhs)|
    requires IsInfixOperator(KindAt(ts, off)) && Precedence(KindAt(ts, off)) > min
    requires ReadExpression(ts, off + 1, Precedence(KindAt(ts, off))).Ok?
    ensures var r := ReadExpression(ts, off + 1, Precedence(KindAt(ts, off)));
            var t := Infix(lhs, TokenAt(ts, off), r.value);
            StandsAt(ts, start, min, t) && r.next == start + |Yield(t)|
    decreases Left(ts, off + 1), 5
  {
    hide Precedence, IsOperator, ReadExpression, Stand, Yield, Canonical, Edge, Follows;
    var k := KindAt(ts, off);
    TightEnough(k);
    SoundExpression(ts, off + 1, Precedence(k));
    var r := ReadExpression(ts, off + 1, Precedence(k));
    MakeInfix(Infix(lhs, TokenAt(ts, off), r.value), min, KindAt(ts, r.next));
    StandOne(ts, off, TokenAt(ts, off));
    Split3(ts, start, Yield(lhs), [TokenAt(ts, off)], Yield(r.value));
  }

  lemma {:induction false} SoundBetween(ts: seq<Token>, start: nat, off: nat, lhs: Tree, min: nat)
    requires Lexed(ts) && StandsAt(ts, start, min, lhs) && off == start + |Yield(lhs)|
    requires TokenAt(ts, off) == Fixed(KeywordBetween) && Precedence(KeywordBetween) > min
    requires ReadBetween(ts, off + 1, lhs).Ok?
    ensures var r := ReadBetween(ts, off + 1, lhs);
              StandsAt(ts, start, min, r.value) && r.next == start + |Yield(r.value)|
    decreases Left(ts, off + 1), 5
  {
    hide Precedence, IsOperator, ReadExpression, Stand, Yield, Canonical, Edge, Follows, Spelling, IsFixed;
    FixedKinds();
    SoundExpression(ts, off + 1, RANGE);
    var low := ReadExpression(ts, off + 1, RANGE);
    SpelledAt(ts, low.next, KeywordAnd);
    SoundExpression(ts, low.next + 1, RANGE);
    var high := ReadExpression(ts, low.next + 1, RANGE);
    var t := Between(lhs, low.value, high.value);
    MakeBetween(t, min, KindAt(ts, high.next));
    var a := Yield(lhs) + [Fixed(KeywordBetween)] + Yield(low.value);
    StandOne(ts, off, Fixed(KeywordBetween));
    Split3(ts, start, Yield(lhs), [Fixed(KeywordBetween)], Yield(low.value));
    StandOne(ts, low.next, Fixed(KeywordAnd));
    Split3(ts, start, a, [Fixed(KeywordAnd)], Yield(high.value));
  }

  lemma MakeBetween(t: Tree, min: nat, k: Kind)
    requires t.Between?
    requires Canonical(t.left) && Follows(t.left, KeywordBetween) && Edge(t.left) > min
             && Precedence(KeywordBetween) > min
    requires Canonical(t.low) && Edge(t.low) > RANGE && Follows(t.low, KeywordAnd)
    requires Canonical(t.high) && Edge(t.high) > RANGE && Follows(t.high, k)
             && (IsOperator(k) ==> Precedence(k) <= RANGE)
    ensures Canonical(t) && Edge(t) > min && Follows(t, k)
    ensures Yield(t) == Yield(t.left) + [Fixed(KeywordBetween)] + Yield(t.low) + [Fixed(KeywordAnd)] + Yield(t.high)
  {
    hide Precedence, IsOperator, Spelling;
  }

  lemma MakeIn(t: Tree, min: nat, k: Kind)
    requires t.In? && Canonical(t.left) && Follows(t.left, KeywordIn) && Edge(t.left) > min
             && Precedence(KeywordIn) > min
    requires t.args != [] && CanonicalList(t.args)
    ensures Canonical(t) && Edge(t) > min && Follows(t, k)
    ensures Yield(t) == Yield(t.left) + [Fixed(KeywordIn)] + [Fixed(ParenOpen)] + YieldList(t.args)
            + [Fixed(ParenClose)]
  {
    hide Precedence, IsOperator, Spelling, CanonicalList;
    TightEnough(k);
  }

  lemma {:induction false} SoundIn(ts: seq<Token>, start: nat, off: nat, lhs: Tree, min: nat)
    requires Lexed(ts) && StandsAt(ts, start, min, lhs) && off == start + |Yield(lhs)|
    requires TokenAt(ts, off) == Fixed(KeywordIn) && Precedence(KeywordIn) > min
    requires ReadIn(ts, off + 1, lhs).Ok?
    ensures var r := ReadIn(ts, off + 1, lhs); StandsAt(ts, start, min, r.value) && r.next == start + |Yield(r.value)|
    decreases Left(ts, off + 1), 5
  {
    hide Precedence, IsOperator, ReadItems, Stand, CanonicalList, Spelling, IsFixed, Yield, Canonical, Edge, Follows;
    FixedKinds();
    SpelledAt(ts, off + 1, ParenOpen);
    SoundItems(ts, off + 2);
    var r := ReadItems(ts, off + 2);
    MakeIn(In(lhs, r.value), min, KindAt(ts, r.next));
    StandOne(ts, off, Fixed(KeywordIn));
    StandOne(ts, off + 1, Fixed(ParenOpen));
    var a := Yield(lhs) + [Fixed(KeywordIn)] + [Fixed(ParenOpen)];
    Split3(ts, start, Yield(lhs), [Fixed(KeywordIn)], [Fixed(ParenOpen)]);
    Split3(ts, start, a, YieldList(r.value), [Fixed(ParenClose)]);
  }

  lemma TightEnough(k: Kind)
    ensures Precedence(k) < LOOSE
  {
  }

  lemma MakeIs(t: Tree, min: nat, k: Kind)
    requires t.Is? && Canonical(t.left) && Follows(t.left, KeywordIs) && Edge(t.left) > min
             && Precedence(KeywordIs) > min
    ensures Canonical(t) && Edge(t) > min && Follows(t, k)
    ensures Yield(t) == Yield(t.left) + [Fixed(KeywordIs)] + IsClause(t.negated)
  {
    hide Precedence, IsOperator, Spelling;
    TightEnough(k);
  }

  lemma IsClauseStands(ts: seq<Token>, off: nat, negated: bool)
    requires Lexed(ts)
    requires if negated then KindAt(ts, off).KeywordNot? && KindAt(ts, off + 1).KeywordNull?
             else KindAt(ts, off).KeywordNull?
    ensures Stand(ts, off, IsClause(negated)) && |IsClause(negated)| == if negated then 2 else 1
  {
  }

  lemma SoundIs(ts: seq<Token>, start: nat, off: nat, lhs: Tree, min: nat)
    requires Lexed(ts) && StandsAt(ts, start, min, lhs) && off == start + |Yield(lhs)|
    requires TokenAt(ts, off) == Fixed(KeywordIs) && Precedence(KeywordIs) > min
    requires ReadIs(ts, off + 1, lhs).Ok?
    ensures var r := ReadIs(ts, off + 1, lhs); StandsAt(ts, start, min, r.value) && r.next == start + |Yield(r.value)|
  {
    hide Precedence, IsOperator, Stand, Spelling, IsClause, Yield, Canonical, Edge, Follows;
    var r := ReadIs(ts, off + 1, lhs);
    MakeIs(r.value, min, KindAt(ts, r.next));
    IsClauseStands(ts, off + 1, r.value.negated);
    StandOne(ts, off, Fixed(KeywordIs));
    Split3(ts, start, Yield(lhs), [Fixed(KeywordIs)], IsClause(r.value.negated));
  }

  lemma {:induction false} SoundItems(ts: seq<Token>, off: nat)
    requires Lexed(ts) && ReadItems(ts, off).Ok?
    ensures var r := ReadItems(ts, off);
            && r.value != [] && CanonicalList(r.value)
            && Stand(ts, off, YieldList(r.value)) && Stand(ts, r.next - 1, [Fixed(ParenClose)])
            && r.next == off + |YieldList(r.value)| + 1
    decreases Left(ts, off), 4
  {
    hide Precedence, IsOperator, Stand, Yield, Canonical, Spelling, IsFixed, ReadExpression;
    FixedKinds();
    SoundExpression(ts, off, 0);
    var r := ReadExpression(ts, off, 0);
    var all := ReadItems(ts, off).value;
    if KindAt(ts, r.next).ParenClose? {
      SpelledAt(ts, r.next, ParenClose);
      StandOne(ts, r.next, Fixed(ParenClose));
    } else {
      SpelledAt(ts, r.next, Comma);
      StandOne(ts, r.next, Fixed(Comma));
      SoundItems(ts, r.next + 1);
      assert all[1..] == ReadItems(ts, r.next + 1).value;
      Split3(ts, off, Yield(r.value), [Fixed(Comma)], YieldList(all[1..]));
    }
  }

  /** An operand that is no operation can stand in front of any operator. */
  lemma {:induction false} SoundPrimary(ts: seq<Token>, off: nat, min: nat)
    requires Lexed(ts) && ReadPrimary(ts, off).Ok? && min < LOOSE
    ensures var r := ReadPrimary(ts, off); StandsAt(ts, off, min, r.value) && r.next == off + |Yield(r.value)|
    decreases Left(ts, off), 2
  {
    hide Precedence, IsOperator, Stand, Yield, Spelling, IsFixed, ReadExpression, ReadCall, ReadName, ReadCase,
         IsConstant, StandsAt;
    var k := KindAt(ts, off);
    if k.Identifier? {
      if KindAt(ts, off + 1).ParenOpen? {
        SoundCall(ts, off, min);
      } else {
        SoundName(ts, off, min);
      }
    } else if k.OpSub? {
      SoundMinus(ts, off, min);
    } else if k.ParenOpen? {
      SoundParen(ts, off, min);
    } else if k.KeywordCase? {
      SoundCase(ts, off, min);
    } else {
      SoundConstant(ts, off, min);
    }
  }

  lemma SoundName(ts: seq<Token>, off: nat, min: nat)
    requires Lexed(ts) && KindAt(ts, off).Identifier? && ReadName(ts, off).Ok? && min < LOOSE
    requires !KindAt(ts, off + 1).ParenOpen?
    ensures var r := ReadName(ts, off); StandsAt(ts, off, min, r.value) && r.next == off + |Yield(r.value)|
  {
    hide Precedence, IsOperator, Stand, Spelling, IsFixed;
    FixedKinds();
    var r := ReadName(ts, off);
    TightEnough(KindAt(ts, r.next));
    StandOne(ts, off, TokenAt(ts, off));
    if r.value.Qualified? {
      SpelledAt(ts, off + 1, Period);
      StandOne(ts, off + 1, Fixed(Period));
      StandOne(ts, off + 2, TokenAt(ts, off + 2));
      Split3(ts, off, [TokenAt(ts, off)], [Fixed(Period)], [TokenAt(ts, off + 2)]);
      assert Yield(r.value) == [TokenAt(ts, off)] + [Fixed(Period)] + [TokenAt(ts, off + 2)];
    }
  }

  lemma SoundConstant(ts: seq<Token>, off: nat, min: nat)
    requires IsConstant(TokenAt(ts, off)) && min < LOOSE
    ensures StandsAt(ts, off, min, Constant(TokenAt(ts, off))) && |Yield(Constant(TokenAt(ts, off)))| == 1
  {
  }

  lemma {:induction false} SoundMinus(ts: seq<Token>, off: nat, min: nat)
    requires Lexed(ts) && KindAt(ts, off).OpSub? && ReadPrimary(ts, off).Ok? && min < LOOSE
    ensures var r := ReadPrimary(ts, off); StandsAt(ts, off, min, r.value) && r.next == off + |Yield(r.value)|
    decreases Left(ts, off), 1
  {
    hide Precedence, IsOperator, Stand, Spelling, IsFixed, ReadExpression, IsConstant;
    FixedKinds();
    SpelledAt(ts, off, OpSub);
    SoundExpression(ts, off + 1, UNARY);
    var r := ReadExpression(ts, off + 1, UNARY);
    StandOne(ts, off, Fixed(OpSub));
    StandSplit(ts, off, [Fixed(OpSub)], Yield(r.value));
  }

  lemma {:induction false} SoundParen(ts: seq<Token>, off: nat, min: nat)
    requires Lexed(ts) && KindAt(ts, off).ParenOpen? && ReadPrimary(ts, off).Ok? && min < LOOSE
    ensures var r := ReadPrimary(ts, off); StandsAt(ts, off, min, r.value) && r.next == off + |Yield(r.value)|
    decreases Left(ts, off), 1
  {
    hide Precedence, IsOperator, Stand, Spelling, IsFixed, ReadExpression, IsConstant;
    FixedKinds();
    SpelledAt(ts, off, ParenOpen);
    SoundExpression(ts, off + 1, 0);
    var r := ReadExpression(ts, off + 1, 0);
    var close := TokenAt(ts, r.next);
    PrecedencePositive(close.kind);
    TightEnough(KindAt(ts, r.next + 1));
    StandOne(ts, off, Fixed(ParenOpen));
    StandOne(ts, r.next, close);
    Split3(ts, off, [Fixed(ParenOpen)], Yield(r.value), [close]);
  }

  /** Everything between a name with its opening parenthesis and the closing one. */
  lemma CallStandsUp(ts: seq<Token>, off: nat, ys: seq<Token>)
    requires Lexed(ts) && KindAt(ts, off + 1).ParenOpen? && Stand(ts, off + 2, ys)
             && KindAt(ts, off + 2 + |ys|).ParenClose?
    ensures Stand(ts, off, [TokenAt(ts, off), Fixed(ParenOpen)] + ys + [Fixed(ParenClose)])
  {
    hide Stand, Spelling, IsFixed;
    FixedKinds();
    var id := TokenAt(ts, off);
    SpelledAt(ts, off + 1, ParenOpen);
    SpelledAt(ts, off + 2 + |ys|, ParenClose);
    StandOne(ts, off, id);
    StandOne(ts, off + 1, Fixed(ParenOpen));
    StandOne(ts, off + 2 + |ys|, Fixed(ParenClose));
    StandSplit(ts, off, [id], [Fixed(ParenOpen)]);
    assert [id] + [Fixed(ParenOpen)] == [id, Fixed(ParenOpen)];
    Split3(ts, off, [id, Fixed(ParenOpen)], ys, [Fixed(ParenClose)]);
  }

  lemma {:induction false} SoundCall(ts: seq<Token>, off: nat, min: nat)
    requires Lexed(ts) && off < |ts| && KindAt(ts, off).Identifier? && KindAt(ts, off + 1).ParenOpen?
    requires ReadCall(ts, off).Ok? && min < LOOSE
    ensures var r := ReadCall(ts, off); StandsAt(ts, off, min, r.value) && r.next == off + |Yield(r.value)|
    decreases Left(ts, off), 1
  {
    hide Precedence, IsOperator, Stand, Spelling, ReadExpression, ReadItems, IsAggregateName, IsOverClause,
         CanonicalList;
    var id := TokenAt(ts, off);
    var r := ReadCall(ts, off);
    TightEnough(KindAt(ts, r.next));
    if IsAggregateName(id.value) {
      SoundAggregate(ts, off, min);
    } else if KindAt(ts, off + 2).ParenClose? {
      EmptyStands(ts, off + 2);
      EmptyList();
      CallStandsUp(ts, off, []);
      assert Yield(r.value) == [id, Fixed(ParenOpen)] + [] + [Fixed(ParenClose)];
    } else {
      SoundItems(ts, off + 2);
      var items := ReadItems(ts, off + 2);
      StandOne(ts, items.next - 1, Fixed(ParenClose));
      CallStandsUp(ts, off, YieldList(items.value));
    }
  }

  lemma EmptyList()
    ensures CanonicalList([])
  {
  }

  lemma EmptyStands(ts: seq<Token>, off: nat)
    ensures Stand(ts, off, [])
  {
  }

  lemma {:induction false} SoundAggregate(ts: seq<Token>, off: nat, min: nat)
    requires Lexed(ts) && off < |ts| && KindAt(ts, off).Identifier? && KindAt(ts, off + 1).ParenOpen?
    requires IsAggregateName(TokenAt(ts, off).value) && ReadCall(ts, off).Ok? && min < LOOSE
    ensures var r := ReadCall(ts, off); StandsAt(ts, off, min, r.value) && r.next == off + |Yield(r.value)|
    decreases Left(ts, off), 0
  {
    hide Precedence, IsOperator, Stand, Spelling, ReadExpression, ReadItems, IsAggregateName, IsOverClause, OverClause;
    var r := ReadCall(ts, off);
    TightEnough(KindAt(ts, r.next));
    SoundExpression(ts, off + 2, 0);
    var arg := ReadExpression(ts, off + 2, 0);
    CallStandsUp(ts, off, Yield(arg.value));
    if r.value.AggregateOver? {
      OverStandsUp(ts, arg.next + 1);
      StandSplit(ts, off, [TokenAt(ts, off), Fixed(ParenOpen)] + Yield(arg.value) + [Fixed(ParenClose)],
          OverClause(r.value.partition));
    }
  }

  lemma OverStandsUp(ts: seq<Token>, off: nat)
    requires Lexed(ts) && IsOverClause(ts, off)
    ensures Stand(ts, off, OverClause(TokenAt(ts, off + 4))) && |OverClause(TokenAt(ts, off + 4))| == 6
    ensures TokenAt(ts, off + 4).kind.Identifier?
  {
    hide Spelling, IsFixed;
    FixedKinds();
    SpelledAt(ts, off, KeywordOver);
    SpelledAt(ts, off + 1, ParenOpen);
    SpelledAt(ts, off + 2, KeywordPartition);
    SpelledAt(ts, off + 3, KeywordBy);
    SpelledAt(ts, off + 5, ParenClose);
  }

  lemma {:induction false} SoundWhens(ts: seq<Token>, off: nat)
    requires Lexed(ts) && ReadWhens(ts, off).Ok?
    ensures var r := ReadWhens(ts, off);
            && CanonicalWhens(r.value) && Stand(ts, off, YieldWhens(r.value)) && r.next == off + |YieldWhens(r.value)|
            && !KindAt(ts, r.next).KeywordWhen? && EndsBefore(r.value, KindAt(ts, r.next))
    decreases Left(ts, off), 4
  {
    hide Precedence, IsOperator, Stand, Yield, Canonical, Follows, Spelling, IsFixed, ReadExpression, Edge;
    FixedKinds();
    if KindAt(ts, off).KeywordWhen? {
      SpelledAt(ts, off, KeywordWhen);
      SoundExpression(ts, off + 1, 0);
      var condition := ReadExpression(ts, off + 1, 0);
      var n := condition.next;
      SpelledAt(ts, n, KeywordThen);
      SoundExpression(ts, n + 1, 0);
      var value := ReadExpression(ts, n + 1, 0);
      PrecedencePositive(KindAt(ts, value.next));
      SoundWhens(ts, value.next);
      var rest := ReadWhens(ts, value.next);
      WhensStandUp(ts, off, condition.value, value.value, rest.value);
      assert ReadWhens(ts, off).value == When(condition.value, value.value, rest.value);
    } else {
      EmptyStands(ts, off);
    }
  }

  lemma WhensStandUp(ts: seq<Token>, off: nat, a: Tree, b: Tree, rest: Whens)
    requires TokenAt(ts, off) == Fixed(KeywordWhen) && Stand(ts, off + 1, Yield(a))
    requires TokenAt(ts, off + 1 + |Yield(a)|) == Fixed(KeywordThen) && Stand(ts, off + 2 + |Yield(a)|, Yield(b))
    requires Stand(ts, off + 2 + |Yield(a)| + |Yield(b)|, YieldWhens(rest))
    ensures Stand(ts, off, [Fixed(KeywordWhen)] + Yield(a) + [Fixed(KeywordThen)] + Yield(b) + YieldWhens(rest))
  {
    hide Spelling, Stand, Yield, YieldWhens;
    var w, t := [Fixed(KeywordWhen)], [Fixed(KeywordThen)];
    StandOne(ts, off, Fixed(KeywordWhen));
    StandOne(ts, off + 1 + |Yield(a)|, Fixed(KeywordThen));
    Split3(ts, off, w, Yield(a), t);
    Split3(ts, off, w + Yield(a) + t, Yield(b), YieldWhens(rest));
  }

  /** The tokens of a CASE, from its parts. */
  lemma CaseStandsUp(ts: seq<Token>, off: nat, t: Tree)
    requires t.Case? || t.CaseElse?
    requires TokenAt(ts, off) == Fixed(KeywordCase) && Stand(ts, off + 1, YieldWhens(t.whens))
    requires var n := off + 1 + |YieldWhens(t.whens)|;
             if t.Case? then TokenAt(ts, n) == Fixed(KeywordEnd)
             else
               && TokenAt(ts, n) == t.mark && Stand(ts, n + 1, Yield(t.otherwise))
               && TokenAt(ts, n + 1 + |Yield(t.otherwise)|) == Fixed(KeywordEnd)
    ensures Stand(ts, off, Yield(t))
  {
    hide Stand, Spelling;
    var a, w, e := [Fixed(KeywordCase)], YieldWhens(t.whens), [Fixed(KeywordEnd)];
    var n := off + 1 + |w|;
    StandOne(ts, off, Fixed(KeywordCase));
    if t.Case? {
      StandOne(ts, n, Fixed(KeywordEnd));
      Split3(ts, off, a, w, e);
    } else {
      StandOne(ts, n, t.mark);
      StandOne(ts, n + 1 + |Yield(t.otherwise)|, Fixed(KeywordEnd));
      Split3(ts, off, a, w, [t.mark]);
      Split3(ts, off, a + w + [t.mark], Yield(t.otherwise), e);
    }
  }

  lemma {:induction false} SoundCase(ts: seq<Token>, off: nat, min: nat)
    requires Lexed(ts) && KindAt(ts, off).KeywordCase? && ReadCase(ts, off + 1).Ok? && min < LOOSE
    ensures var r := ReadCase(ts, off + 1); StandsAt(ts, off, min, r.value) && r.next == off + |Yield(r.value)|
    decreases Left(ts, off), 1
  {
    hide Precedence, IsOperator, Stand, Spelling, IsFixed, ReadExpression, ReadWhens, EndsBefore, Follows,
         CanonicalWhens, Yield, YieldWhens;
    FixedKinds();
    var r := ReadCase(ts, off + 1);
    SpelledAt(ts, off, KeywordCase);
    SoundWhens(ts, off + 1);
    CaseFollows(r.value, KindAt(ts, r.next));
    CaseLength(r.value);
    SpelledAt(ts, r.next - 1, KeywordEnd);
    if r.value.CaseElse? {
      SoundExpression(ts, ReadWhens(ts, off + 1).next + 1, 0);
    }
    CaseStandsUp(ts, off, r.value);
  }

  lemma CaseLength(t: Tree)
    ensures t.Case? ==> |Yield(t)| == |YieldWhens(t.whens)| + 2
    ensures t.CaseElse? ==> |Yield(t)| == |YieldWhens(t.whens)| + |Yield(t.otherwise)| + 3
  {
  }

  lemma CaseFollows(t: Tree, k: Kind)
    requires t.Case? || t.CaseElse?
    ensures Follows(t, k)
  {
    TightEnough(k);
  }
}
