/** The expression parser reads every canonical tree as itself. */
module Completeness {
  import opened Tokens
  import opened Grammar
  import opened Reading

  /** The tokens `ys` stand at `off`. */
  ghost predicate Stand(ts: seq<Token>, off: nat, ys: seq<Token>) {
    forall i: nat | i < |ys| :: TokenAt(ts, off + i) == ys[i]
  }

  lemma StandSplit(ts: seq<Token>, off: nat, a: seq<Token>, b: seq<Token>)
    ensures Stand(ts, off, a + b) <==> Stand(ts, off, a) && Stand(ts, off + |a|, b)
  {
    if Stand(ts, off, a + b) {
      forall i: nat | i < |a| ensures TokenAt(ts, off + i) == a[i] {
        assert (a + b)[i] == a[i];
      }
      forall i: nat | i < |b| ensures TokenAt(ts, off + |a| + i) == b[i] {
        assert TokenAt(ts, off + (|a| + i)) == (a + b)[|a| + i] == b[i];
      }
    }
    if Stand(ts, off, a) && Stand(ts, off + |a|, b) {
      forall i: nat | i < |a + b| ensures TokenAt(ts, off + i) == (a + b)[i] {
        if i >= |a| {
          assert TokenAt(ts, off + |a| + (i - |a|)) == b[i - |a|];
        }
      }
    }
  }

  lemma StandOne(ts: seq<Token>, off: nat, t: Token)
    ensures Stand(ts, off, [t]) <==> TokenAt(ts, off) == t
  {
    if Stand(ts, off, [t]) {
      assert TokenAt(ts, off + 0) == [t][0];
    }
  }

  predicate IsPrimary(t: Tree) {
    !t.Infix? && !t.Between? && !t.In? && !t.Is?
  }

  /** A tree of at least precedence `min` stands at `off`, and the token behind it does not belong to it. */
  ghost predicate StandsAt(ts: seq<Token>, off: nat, min: nat, t: Tree) {
    Canonical(t) && Edge(t) > min && Stand(ts, off, Yield(t)) && Follows(t, KindAt(ts, off + |Yield(t)|))
  }

  /** The operator at the root of a compound tree. */
  function Root(t: Tree): Token
    requires !IsPrimary(t)
  {
    match t
    case Infix(_, op, _) => op
    case Between(_, _, _) => Fixed(KeywordBetween)
    case In(_, _) => Fixed(KeywordIn)
    case Is(_, _) => Fixed(KeywordIs)
  }

  // ---- Completeness: a canonical tree is read as itself ----

  /** Reading `t` and what follows is the same as going on behind `t` with `t` as the left operand. */
  lemma {:induction false} ReadsThrough(ts: seq<Token>, off: nat, min: nat, t: Tree)
    requires StandsAt(ts, off, min, t)
    ensures ReadExpression(ts, off, min) == ReadOperand(ts, off + |Yield(t)|, t, min)
    decreases t, 3
  {
    hide Spelling, ReadPrimary, ReadOperand, ReadOperation, Precedence, Follows, Yield, Stand;
    if IsPrimary(t) {
      ReadsPrimary(ts, off, t);
    } else {
      LeftOperand(ts, off, min, t);
      ReadsThrough(ts, off, min, t.left);
      ReadsOperation(ts, off, t);
      OneOperation(ts, off + |Yield(t.left)|, min, t, off + |Yield(t)|);
    }
  }

  lemma OneOperation(ts: seq<Token>, off: nat, min: nat, t: Tree, n: nat)
    requires !IsPrimary(t) && TokenAt(ts, off) == Root(t)
    requires IsOperator(Root(t).kind) && Precedence(Root(t).kind) > min
    requires ReadOperation(ts, off + 1, t.left, Root(t)) == Ok(t, n)
    ensures ReadOperand(ts, off, t.left, min) == ReadOperand(ts, n, t, min)
  {
    hide Spelling, ReadOperation, Precedence, IsOperator;
  }

  /** When the token behind `t` is no operator tighter than `min`, reading stops there. */
  lemma {:induction false} ReadsAndStops(ts: seq<Token>, off: nat, min: nat, t: Tree)
    requires StandsAt(ts, off, min, t)
    requires var k := KindAt(ts, off + |Yield(t)|); IsOperator(k) ==> Precedence(k) <= min
    ensures ReadExpression(ts, off, min) == Ok(t, off + |Yield(t)|)
    decreases t, 4
  {
    hide Spelling, ReadPrimary, ReadOperation, Precedence, ReadExpression, IsOperator, Yield, StandsAt;
    ReadsThrough(ts, off, min, t);
  }

  /** The left operand of a canonical compound tree can be read with the same minimal precedence. */
  lemma LeftOperand(ts: seq<Token>, off: nat, min: nat, t: Tree)
    requires StandsAt(ts, off, min, t) && !IsPrimary(t)
    ensures StandsAt(ts, off, min, t.left) && TokenAt(ts, off + |Yield(t.left)|) == Root(t)
    ensures IsOperator(Root(t).kind) && Precedence(Root(t).kind) > min
  {
    hide Spelling, Precedence, Stand, Follows, Reach, Glues;
    RootStands(ts, off, t);
  }

  lemma RootStands(ts: seq<Token>, off: nat, t: Tree)
    requires !IsPrimary(t) && Stand(ts, off, Yield(t))
    ensures Stand(ts, off, Yield(t.left)) && TokenAt(ts, off + |Yield(t.left)|) == Root(t)
  {
    hide Spelling, Stand;
    var l := Yield(t.left);
    match t {
      case Infix(_, op, right) => StandSplit(ts, off, l + [op], Yield(right));
      case Between(_, low, high) =>
        var b, c := [Fixed(KeywordBetween)], [Fixed(KeywordAnd)];
        StandSplit(ts, off, l + b + Yield(low) + c, Yield(high));
        StandSplit(ts, off, l + b + Yield(low), c);
        StandSplit(ts, off, l + b, Yield(low));
      case In(_, args) =>
        var b, c := [Fixed(KeywordIn)], [Fixed(ParenOpen)];
        assert Yield(t) == l + b + c + YieldList(args) + [Fixed(ParenClose)];
        StandSplit(ts, off, l + b + c + YieldList(args), [Fixed(ParenClose)]);
        StandSplit(ts, off, l + b + c, YieldList(args));
        StandSplit(ts, off, l + b, c);
      case Is(_, negated) => StandSplit(ts, off, l + [Fixed(KeywordIs)], IsClause(negated));
    }
    StandSplit(ts, off, l, [Root(t)]);
    StandOne(ts, off + |l|, Root(t));
  }

  lemma {:induction false} ReadsOperation(ts: seq<Token>, off: nat, t: Tree)
    requires !IsPrimary(t) && Canonical(t) && Stand(ts, off, Yield(t)) && Follows(t, KindAt(ts, off + |Yield(t)|))
    ensures ReadOperation(ts, off + |Yield(t.left)| + 1, t.left, Root(t)) == Ok(t, off + |Yield(t)|)
    decreases t, 2
  {
    hide Spelling, Yield, Canonical, Stand, Follows, Precedence, ReadOperation;
    match t
    case Infix(_, _, _) => ReadsInfix(ts, off, t);
    case Between(_, _, _) => ReadsBetween(ts, off, t);
    case In(_, _) => ReadsIn(ts, off, t);
    case Is(_, _) => ReadsIs(ts, off, t);
  }

  lemma {:induction false} ReadsInfix(ts: seq<Token>, off: nat, t: Tree)
    requires t.Infix? && Canonical(t) && Stand(ts, off, Yield(t)) && Follows(t, KindAt(ts, off + |Yield(t)|))
    ensures ReadOperation(ts, off + |Yield(t.left)| + 1, t.left, t.op) == Ok(t, off + |Yield(t)|)
    decreases t, 1
  {
    hide Spelling, ReadPrimary, ReadExpression, Precedence, Stand, IsOperator;
    StandSplit(ts, off, Yield(t.left) + [t.op], Yield(t.right));
    ReadsAndStops(ts, off + |Yield(t.left)| + 1, Precedence(t.op.kind), t.right);
  }

  lemma BetweenShape(t: Tree, k: Kind)
    requires t.Between? && Canonical(t) && Follows(t, k)
    ensures Yield(t) == Yield(t.left) + [Fixed(KeywordBetween)] + Yield(t.low) + [Fixed(KeywordAnd)] + Yield(t.high)
    ensures Canonical(t.low) && Edge(t.low) > RANGE && Follows(t.low, KeywordAnd)
    ensures Canonical(t.high) && Edge(t.high) > RANGE && Follows(t.high, k)
            && (IsOperator(k) ==> Precedence(k) <= RANGE)
  {
    hide Precedence, IsOperator, Spelling;
  }

  lemma {:induction false} ReadsBetween(ts: seq<Token>, off: nat, t: Tree)
    requires t.Between? && Canonical(t) && Stand(ts, off, Yield(t)) && Follows(t, KindAt(ts, off + |Yield(t)|))
    ensures ReadOperation(ts, off + |Yield(t.left)| + 1, t.left, Fixed(KeywordBetween)) == Ok(t, off + |Yield(t)|)
    decreases t, 1
  {
    hide Spelling, ReadPrimary, ReadExpression, Stand, IsOperator, Precedence, Yield, Canonical, Edge, Follows;
    BetweenShape(t, KindAt(ts, off + |Yield(t)|));
    var n := off + |Yield(t.left)|;
    var m := n + 1 + |Yield(t.low)|;
    var a := Yield(t.left) + [Fixed(KeywordBetween)];
    Split3(ts, off, a + Yield(t.low), [Fixed(KeywordAnd)], Yield(t.high));
    StandSplit(ts, off, a, Yield(t.low));
    StandOne(ts, m, Fixed(KeywordAnd));
    AndIsLoose();
    ReadsAndStops(ts, n + 1, RANGE, t.low);
    ReadsAndStops(ts, m + 1, RANGE, t.high);
  }

  lemma AndIsLoose()
    ensures Precedence(KeywordAnd) <= RANGE
  {
  }

  lemma {:induction false} ReadsIn(ts: seq<Token>, off: nat, t: Tree)
    requires t.In? && Canonical(t) && Stand(ts, off, Yield(t))
    ensures ReadOperation(ts, off + |Yield(t.left)| + 1, t.left, Fixed(KeywordIn)) == Ok(t, off + |Yield(t)|)
    decreases t, 1
  {
    hide Spelling, ReadPrimary, ReadExpression, Precedence, ReadItems, Stand;
    var n := off + |Yield(t.left)|;
    var l, b, c := Yield(t.left) + [Fixed(KeywordIn)], [Fixed(ParenOpen)], [Fixed(ParenClose)];
    assert Yield(t) == l + b + YieldList(t.args) + c;
    StandSplit(ts, off, l + b + YieldList(t.args), c);
    StandSplit(ts, off, l + b, YieldList(t.args));
    StandSplit(ts, off, l, b);
    StandOne(ts, n + 1, Fixed(ParenOpen));
    StandOne(ts, n + 2 + |YieldList(t.args)|, Fixed(ParenClose));
    ReadsItems(ts, n + 2, t.args);
  }

  lemma ReadsIs(ts: seq<Token>, off: nat, t: Tree)
    requires t.Is? && Stand(ts, off, Yield(t))
    ensures ReadOperation(ts, off + |Yield(t.left)| + 1, t.left, Fixed(KeywordIs)) == Ok(t, off + |Yield(t)|)
  {
    hide Spelling, ReadPrimary, ReadExpression, Precedence, ReadItems, Stand;
    var n := off + |Yield(t.left)|;
    StandSplit(ts, off, Yield(t.left) + [Fixed(KeywordIs)], IsClause(t.negated));
    if t.negated {
      assert IsClause(t.negated) == [Fixed(KeywordNot)] + [Fixed(KeywordNull)];
      StandSplit(ts, n + 1, [Fixed(KeywordNot)], [Fixed(KeywordNull)]);
      StandOne(ts, n + 1, Fixed(KeywordNot));
      StandOne(ts, n + 2, Fixed(KeywordNull));
    } else {
      StandOne(ts, n + 1, Fixed(KeywordNull));
    }
  }

  /** A separator is never taken to belong to the tree in front of it. */
  predicate IsSeparator(k: Kind) {
    !IsOperator(k) && !k.ParenOpen? && !k.Period? && !k.KeywordOver?
  }

  lemma {:induction false} SeparatorFollows(t: Tree, k: Kind)
    requires IsSeparator(k)
    ensures Follows(t, k) && Edge(t) > 0
    decreases t
  {
    hide Spelling, Precedence, IsOperator;
    match t
    case Minus(operand) => SeparatorFollows(operand, k);
    case Infix(left, op, right) =>
      SeparatorFollows(left, k);
      SeparatorFollows(right, k);
      PrecedencePositive(op.kind);
    case Between(left, _, high) =>
      SeparatorFollows(left, k);
      SeparatorFollows(high, k);
      PrecedencePositive(KeywordBetween);
    case In(left, _) =>
      SeparatorFollows(left, k);
      PrecedencePositive(KeywordIn);
    case Is(left, _) =>
      SeparatorFollows(left, k);
      PrecedencePositive(KeywordIs);
    case _ =>
  }

  lemma Separators()
    ensures IsSeparator(Comma) && IsSeparator(ParenClose) && IsSeparator(KeywordThen) && IsSeparator(KeywordWhen)
            && IsSeparator(KeywordEnd)
  {
  }

  lemma PrecedencePositive(k: Kind)
    ensures Precedence(k) > 0
  {
  }

  /** A whole expression in front of a separator. */
  lemma {:induction false} ReadsWhole(ts: seq<Token>, off: nat, t: Tree)
    requires Canonical(t) && Stand(ts, off, Yield(t))
    requires IsSeparator(KindAt(ts, off + |Yield(t)|))
    ensures ReadExpression(ts, off, 0) == Ok(t, off + |Yield(t)|)
    decreases t, 5
  {
    hide Spelling, ReadPrimary, ReadExpression, Precedence, IsOperator, Canonical, Stand, Yield, Follows;
    SeparatorFollows(t, KindAt(ts, off + |Yield(t)|));
    ReadsAndStops(ts, off, 0, t);
  }

  lemma ListShape(args: seq<Tree>)
    requires args != [] && CanonicalList(args)
    ensures Canonical(args[0]) && CanonicalList(args[1..])
    ensures YieldList(args) == if |args| == 1 then Yield(args[0])
            else Yield(args[0]) + [Fixed(Comma)] + YieldList(args[1..])
  {
    hide Canonical, Yield, Spelling;
  }

  lemma ItemsStep(ts: seq<Token>, off: nat, args: seq<Tree>, n: nat)
    requires args != [] && ReadExpression(ts, off, 0) == Ok(args[0], n)
    ensures |args| == 1 && KindAt(ts, n).ParenClose? ==> ReadItems(ts, off) == Ok(args, n + 1)
    ensures |args| > 1 && KindAt(ts, n).Comma? ==>
              forall m :: ReadItems(ts, n + 1) == Ok(args[1..], m) ==> ReadItems(ts, off) == Ok(args, m)
  {
    hide ReadExpression;
    assert args == [args[0]] + args[1..];
    assert |args| == 1 ==> args == [args[0]];
  }

  lemma {:induction false} ReadsItems(ts: seq<Token>, off: nat, args: seq<Tree>)
    requires args != [] && CanonicalList(args) && Stand(ts, off, YieldList(args))
    requires KindAt(ts, off + |YieldList(args)|).ParenClose?
    ensures ReadItems(ts, off) == Ok(args, off + |YieldList(args)| + 1)
    decreases args
  {
    hide Spelling, ReadExpression, ReadItems, Stand, Canonical, Yield, IsSeparator, CanonicalList, YieldList;
    Separators();
    ListShape(args);
    var n := off + |Yield(args[0])|;
    if |args| == 1 {
      ReadsWhole(ts, off, args[0]);
      ItemsStep(ts, off, args, n);
    } else {
      Split3(ts, off, Yield(args[0]), [Fixed(Comma)], YieldList(args[1..]));
      StandOne(ts, n, Fixed(Comma));
      ReadsWhole(ts, off, args[0]);
      ReadsItems(ts, n + 1, args[1..]);
      ItemsStep(ts, off, args, n);
    }
  }

  lemma WhensShape(ws: Whens, k: Kind)
    requires ws.When? && CanonicalWhens(ws) && EndsBefore(ws, k)
    ensures Canonical(ws.condition) && Canonical(ws.value) && CanonicalWhens(ws.rest) && EndsBefore(ws.rest, k)
    ensures ws.rest.NoWhen? ==> !IsOperator(k) && Follows(ws.value, k) && YieldWhens(ws.rest) == []
    ensures YieldWhens(ws) ==
            [Fixed(KeywordWhen)] + Yield(ws.condition) + [Fixed(KeywordThen)] + Yield(ws.value) + YieldWhens(ws.rest)
  {
    hide Canonical, Yield, Spelling, IsOperator, Follows;
  }

  lemma WhensStand(ts: seq<Token>, off: nat, a: Tree, b: Tree, rest: Whens)
    requires Stand(ts, off, [Fixed(KeywordWhen)] + Yield(a) + [Fixed(KeywordThen)] + Yield(b) + YieldWhens(rest))
    ensures KindAt(ts, off).KeywordWhen? && Stand(ts, off + 1, Yield(a))
    ensures KindAt(ts, off + 1 + |Yield(a)|).KeywordThen?
    ensures Stand(ts, off + 2 + |Yield(a)|, Yield(b))
    ensures Stand(ts, off + 2 + |Yield(a)| + |Yield(b)|, YieldWhens(rest))
  {
    hide Spelling, Stand, Yield, YieldWhens;
    var w, t := [Fixed(KeywordWhen)], [Fixed(KeywordThen)];
    Split3(ts, off, w + Yield(a) + t, Yield(b), YieldWhens(rest));
    Split3(ts, off, w, Yield(a), t);
    StandOne(ts, off, Fixed(KeywordWhen));
    StandOne(ts, off + 1 + |Yield(a)|, Fixed(KeywordThen));
  }

  lemma {:induction false} ReadsWhens(ts: seq<Token>, off: nat, ws: Whens)
    requires CanonicalWhens(ws) && Stand(ts, off, YieldWhens(ws))
    requires var k := KindAt(ts, off + |YieldWhens(ws)|); !k.KeywordWhen? && EndsBefore(ws, k)
    ensures ReadWhens(ts, off) == Ok(ws, off + |YieldWhens(ws)|)
    decreases ws, 1
  {
    hide Spelling, ReadExpression, Precedence, Stand, Canonical, Yield, YieldWhens, Follows, IsOperator, IsSeparator,
         EndsBefore, Edge, CanonicalWhens;
    if ws.When? {
      Separators();
      WhensShape(ws, KindAt(ts, off + |YieldWhens(ws)|));
      var n := off + 1 + |Yield(ws.condition)|;
      var m := n + 1 + |Yield(ws.value)|;
      WhensStand(ts, off, ws.condition, ws.value, ws.rest);
      ReadsWhole(ts, off + 1, ws.condition);
      ReadsValue(ts, n + 1, ws);
      ReadsWhens(ts, m, ws.rest);
    } else {
      assert YieldWhens(ws) == [] by {
        EmptyWhens();
      }
    }
  }

  lemma EmptyWhens()
    ensures YieldWhens(NoWhen) == []
  {
  }

  lemma {:induction false} ReadsValue(ts: seq<Token>, off: nat, ws: Whens)
    requires ws.When? && CanonicalWhens(ws) && Stand(ts, off, Yield(ws.value))
    requires Stand(ts, off + |Yield(ws.value)|, YieldWhens(ws.rest))
    requires EndsBefore(ws, KindAt(ts, off + |Yield(ws.value)| + |YieldWhens(ws.rest)|))
    ensures ReadExpression(ts, off, 0) == Ok(ws.value, off + |Yield(ws.value)|)
    decreases ws, 0
  {
    hide Spelling, ReadExpression, Stand, Canonical, Yield, YieldWhens, Follows, IsOperator, IsSeparator, EndsBefore,
         Edge, CanonicalWhens;
    Separators();
    WhensShape(ws, KindAt(ts, off + |Yield(ws.value)| + |YieldWhens(ws.rest)|));
    if ws.rest.When? {
      FirstWhen(ts, off + |Yield(ws.value)|, ws.rest);
      ReadsWhole(ts, off, ws.value);
    } else {
      SeparatorFollows(ws.value, Comma);
      ReadsAndStops(ts, off, 0, ws.value);
    }
  }

  lemma FirstWhen(ts: seq<Token>, off: nat, ws: Whens)
    requires ws.When? && Stand(ts, off, YieldWhens(ws))
    ensures KindAt(ts, off).KeywordWhen?
  {
    assert TokenAt(ts, off + 0) == YieldWhens(ws)[0];
  }

  lemma {:induction false} ReadsPrimary(ts: seq<Token>, off: nat, t: Tree)
    requires IsPrimary(t) && Canonical(t) && Stand(ts, off, Yield(t)) && Follows(t, KindAt(ts, off + |Yield(t)|))
    ensures ReadPrimary(ts, off) == Ok(t, off + |Yield(t)|)
    decreases t, 2
  {
    hide Spelling, ReadPrimary, Canonical, Yield, Follows, Stand;
    match t
    case Name(_) => ReadsLeaf(ts, off, t);
    case Qualified(_, _) => ReadsLeaf(ts, off, t);
    case Constant(_) => ReadsLeaf(ts, off, t);
    case Call(_, _) => ReadsCall(ts, off, t);
    case Aggregate(_, _) => ReadsAggregate(ts, off, t);
    case AggregateOver(_, _, _) => ReadsAggregate(ts, off, t);
    case Minus(_) => ReadsMinus(ts, off, t);
    case Paren(_, _) => ReadsParen(ts, off, t);
    case Case(_) => ReadsCase(ts, off, t);
    case CaseElse(_, _, _) => ReadsCase(ts, off, t);
  }

  lemma ReadsLeaf(ts: seq<Token>, off: nat, t: Tree)
    requires t.Name? || t.Qualified? || t.Constant?
    requires Canonical(t) && Stand(ts, off, Yield(t)) && Follows(t, KindAt(ts, off + |Yield(t)|))
    ensures ReadPrimary(ts, off) == Ok(t, off + |Yield(t)|)
  {
    hide Spelling, ReadExpression, ReadCall, ReadCase, Precedence, IsOperator, IsInt, Stand;
    match t
    case Name(id) => StandOne(ts, off, id);
    case Qualified(table, id) =>
      assert Yield(t) == [table] + [Fixed(Period)] + [id];
      Split3(ts, off, [table], [Fixed(Period)], [id]);
      StandOne(ts, off, table);
      StandOne(ts, off + 1, Fixed(Period));
      StandOne(ts, off + 2, id);
    case Constant(literal) => StandOne(ts, off, literal);
  }

  lemma {:induction false} ReadsMinus(ts: seq<Token>, off: nat, t: Tree)
    requires t.Minus? && Canonical(t) && Stand(ts, off, Yield(t)) && Follows(t, KindAt(ts, off + |Yield(t)|))
    ensures ReadPrimary(ts, off) == Ok(t, off + |Yield(t)|)
    decreases t, 1
  {
    hide Spelling, ReadExpression, ReadCall, ReadCase, Precedence, IsOperator, Stand, IsConstant;
    StandSplit(ts, off, [Fixed(OpSub)], Yield(t.operand));
    StandOne(ts, off, Fixed(OpSub));
    ReadsAndStops(ts, off + 1, UNARY, t.operand);
  }

  lemma Split3(ts: seq<Token>, off: nat, a: seq<Token>, b: seq<Token>, c: seq<Token>)
    ensures Stand(ts, off, a + b + c) <==> Stand(ts, off, a) && Stand(ts, off + |a|, b) && Stand(ts, off + |a| + |b|, c)
  {
    hide Spelling, Stand;
    StandSplit(ts, off, a + b, c);
    StandSplit(ts, off, a, b);
  }

  /** The kinds an expression can start with. */
  predicate Starts(k: Kind) {
    k.Identifier? || k.OpSub? || k.ParenOpen? || k.KeywordCase? || IsLiteral(k)
  }

  lemma {:induction false} FirstToken(t: Tree)
    requires Canonical(t)
    ensures Starts(Yield(t)[0].kind)
    decreases t
  {
    hide Spelling, Precedence, Follows;
    if !IsPrimary(t) {
      FirstToken(t.left);
    }
  }

  lemma FirstStands(ts: seq<Token>, off: nat, t: Tree)
    requires Canonical(t) && Stand(ts, off, Yield(t))
    ensures Starts(KindAt(ts, off))
  {
    hide Spelling, Canonical, Yield;
    FirstToken(t);
    assert TokenAt(ts, off + 0) == Yield(t)[0];
  }

  lemma ParenShape(t: Tree)
    requires t.Paren? && Canonical(t)
    ensures Canonical(t.inner) && !IsOperator(t.close.kind) && Follows(t.inner, t.close.kind)
    ensures Yield(t) == [Fixed(ParenOpen)] + Yield(t.inner) + [t.close]
  {
    hide Spelling, IsOperator, Follows;
  }

  lemma ParenStep(ts: seq<Token>, off: nat, inner: Tree, n: nat)
    requires KindAt(ts, off).ParenOpen? && !KindAt(ts, off + 1).KeywordSelect?
             && ReadExpression(ts, off + 1, 0) == Ok(inner, n)
    ensures ReadPrimary(ts, off) == Ok(Paren(inner, TokenAt(ts, n)), n + 1)
  {
    hide ReadExpression, ReadCall, ReadCase, ReadName, IsConstant;
  }

  lemma {:induction false} ReadsParen(ts: seq<Token>, off: nat, t: Tree)
    requires t.Paren? && Canonical(t) && Stand(ts, off, Yield(t))
    ensures ReadPrimary(ts, off) == Ok(t, off + |Yield(t)|)
    decreases t, 1
  {
    hide Spelling, ReadPrimary, ReadExpression, IsOperator, Stand, Follows, IsSeparator, Canonical, Yield, Edge,
         Precedence, Starts;
    Separators();
    ParenShape(t);
    var n := off + 1 + |Yield(t.inner)|;
    Split3(ts, off, [Fixed(ParenOpen)], Yield(t.inner), [t.close]);
    StandOne(ts, off, Fixed(ParenOpen));
    StandOne(ts, n, t.close);
    FirstStands(ts, off + 1, t.inner);
    NoSelectStarts();
    SeparatorFollows(t.inner, Comma);
    ReadsAndStops(ts, off + 1, 0, t.inner);
    ParenStep(ts, off, t.inner, n);
  }

  lemma NoSelectStarts()
    ensures !Starts(KeywordSelect)
  {
  }

  lemma {:induction false} ReadsCall(ts: seq<Token>, off: nat, t: Tree)
    requires t.Call? && Canonical(t) && Stand(ts, off, Yield(t))
    ensures ReadPrimary(ts, off) == Ok(t, off + |Yield(t)|)
    decreases t, 1
  {
    hide Spelling, ReadExpression, ReadName, ReadCase, IsConstant, Stand, IsAggregateName, Canonical, ReadItems,
         Yield, YieldList;
    CanonicalCall(t);
    CallStands(ts, off, t.id, YieldList(t.args));
    if t.args != [] {
      ReadsItems(ts, off + 2, t.args);
      ListStarts(ts, off + 2, t.args);
    }
  }

  lemma CanonicalCall(t: Tree)
    requires t.Call? && Canonical(t)
    ensures t.id.kind.Identifier? && !IsAggregateName(t.id.value) && CanonicalList(t.args)
    ensures Yield(t) == [t.id] + [Fixed(ParenOpen)] + YieldList(t.args) + [Fixed(ParenClose)]
    ensures t.args == [] ==> YieldList(t.args) == []
  {
  }

  lemma ListStarts(ts: seq<Token>, off: nat, args: seq<Tree>)
    requires args != [] && CanonicalList(args) && Stand(ts, off, YieldList(args))
    ensures Starts(KindAt(ts, off))
  {
    hide Spelling, Stand, Canonical;
    if |args| > 1 {
      Split3(ts, off, Yield(args[0]), [Fixed(Comma)], YieldList(args[1..]));
    }
    FirstStands(ts, off, args[0]);
  }

  lemma AggregateShape(t: Tree, k: Kind)
    requires (t.Aggregate? || t.AggregateOver?) && Canonical(t) && Follows(t, k)
    ensures t.id.kind.Identifier? && IsAggregateName(t.id.value) && Canonical(t.arg)
    ensures var call := [t.id] + [Fixed(ParenOpen)] + Yield(t.arg) + [Fixed(ParenClose)];
            Yield(t) == if t.Aggregate? then call else call + OverClause(t.partition)
    ensures if t.Aggregate? then !k.KeywordOver? else t.partition.kind.Identifier?
  {
    hide Spelling, IsAggregateName, Precedence, IsOperator;
    assert [t.id] + [Fixed(ParenOpen)] == [t.id, Fixed(ParenOpen)];
  }

  lemma CallStands(ts: seq<Token>, off: nat, id: Token, ys: seq<Token>)
    requires Stand(ts, off, [id] + [Fixed(ParenOpen)] + ys + [Fixed(ParenClose)])
    ensures TokenAt(ts, off) == id && KindAt(ts, off + 1).ParenOpen? && Stand(ts, off + 2, ys)
    ensures KindAt(ts, off + 2 + |ys|).ParenClose?
  {
    hide Spelling, Stand;
    Split3(ts, off, [id] + [Fixed(ParenOpen)], ys, [Fixed(ParenClose)]);
    StandSplit(ts, off, [id], [Fixed(ParenOpen)]);
    StandOne(ts, off, id);
    StandOne(ts, off + 1, Fixed(ParenOpen));
    StandOne(ts, off + 2 + |ys|, Fixed(ParenClose));
  }

  lemma AggregateStep(ts: seq<Token>, off: nat, id: Token, arg: Tree, n: nat)
    requires TokenAt(ts, off) == id && id.kind.Identifier? && IsAggregateName(id.value)
    requires KindAt(ts, off + 1).ParenOpen? && ReadExpression(ts, off + 2, 0) == Ok(arg, n) && KindAt(ts, n).ParenClose?
    ensures !KindAt(ts, n + 1).KeywordOver? ==> ReadPrimary(ts, off) == Ok(Aggregate(id, arg), n + 1)
    ensures IsOverClause(ts, n + 1) ==> ReadPrimary(ts, off) == Ok(AggregateOver(id, arg, TokenAt(ts, n + 5)), n + 7)
  {
    hide ReadExpression, IsAggregateName;
  }

  lemma {:induction false} ReadsAggregate(ts: seq<Token>, off: nat, t: Tree)
    requires (t.Aggregate? || t.AggregateOver?) && Canonical(t) && Stand(ts, off, Yield(t))
    requires Follows(t, KindAt(ts, off + |Yield(t)|))
    ensures ReadPrimary(ts, off) == Ok(t, off + |Yield(t)|)
    decreases t, 1
  {
    hide Spelling, ReadPrimary, ReadExpression, Stand, IsAggregateName, IsSeparator, Yield, Canonical, Follows,
         OverClause, IsOverClause;
    Separators();
    AggregateShape(t, KindAt(ts, off + |Yield(t)|));
    var n := off + 2 + |Yield(t.arg)|;
    var call := [t.id] + [Fixed(ParenOpen)] + Yield(t.arg) + [Fixed(ParenClose)];
    if t.AggregateOver? {
      StandSplit(ts, off, call, OverClause(t.partition));
      OverStands(ts, n + 1, t.partition);
    }
    CallStands(ts, off, t.id, Yield(t.arg));
    ReadsWhole(ts, off + 2, t.arg);
    AggregateStep(ts, off, t.id, t.arg, n);
  }

  lemma OverStands(ts: seq<Token>, off: nat, partition: Token)
    requires Stand(ts, off, OverClause(partition)) && partition.kind.Identifier?
    ensures IsOverClause(ts, off) && TokenAt(ts, off + 4) == partition && |OverClause(partition)| == 6
    ensures KindAt(ts, off).KeywordOver?
  {
    hide Spelling;
    var c := OverClause(partition);
    assert TokenAt(ts, off + 0) == c[0] && TokenAt(ts, off + 1) == c[1] && TokenAt(ts, off + 2) == c[2];
    assert TokenAt(ts, off + 3) == c[3] && TokenAt(ts, off + 4) == c[4] && TokenAt(ts, off + 5) == c[5];
  }

  lemma {:induction false} ReadsCase(ts: seq<Token>, off: nat, t: Tree)
    requires (t.Case? || t.CaseElse?) && Canonical(t) && Stand(ts, off, Yield(t))
    ensures ReadPrimary(ts, off) == Ok(t, off + |Yield(t)|)
    decreases t, 1
  {
    hide Spelling, ReadExpression, ReadName, ReadCall, ReadCase, IsConstant, Stand;
    StandOne(ts, off, Fixed(KeywordCase));
    if t.Case? {
      ReadsPlainCase(ts, off, t);
    } else {
      ReadsCaseElse(ts, off, t);
    }
  }

  lemma {:induction false} ReadsPlainCase(ts: seq<Token>, off: nat, t: Tree)
    requires t.Case? && CanonicalWhens(t.whens) && Stand(ts, off, Yield(t))
    ensures TokenAt(ts, off) == Fixed(KeywordCase) && ReadCase(ts, off + 1) == Ok(t, off + |Yield(t)|)
    decreases t, 0
  {
    hide ReadExpression, Stand, ReadWhens, EndsBefore, CanonicalWhens;
    var w := YieldWhens(t.whens);
    EndFollows(t.whens);
    Split3(ts, off, [Fixed(KeywordCase)], w, [Fixed(KeywordEnd)]);
    StandOne(ts, off, Fixed(KeywordCase));
    StandOne(ts, off + 1 + |w|, Fixed(KeywordEnd));
    ReadsWhens(ts, off + 1, t.whens);
  }

  lemma CaseElseStands(ts: seq<Token>, off: nat, t: Tree)
    requires t.CaseElse? && Canonical(t) && Stand(ts, off, Yield(t))
    ensures CanonicalWhens(t.whens) && IsElse(t.mark) && EndsBefore(t.whens, t.mark.kind) && Canonical(t.otherwise)
    ensures TokenAt(ts, off) == Fixed(KeywordCase) && Stand(ts, off + 1, YieldWhens(t.whens))
    ensures var n := off + 1 + |YieldWhens(t.whens)|;
            && TokenAt(ts, n) == t.mark
            && Stand(ts, n + 1, Yield(t.otherwise)) && TokenAt(ts, n + 1 + |Yield(t.otherwise)|) == Fixed(KeywordEnd)
            && n + 2 + |Yield(t.otherwise)| == off + |Yield(t)|
  {
    hide Spelling, Stand, EndsBefore, CanonicalWhens, IsElse;
    var w := YieldWhens(t.whens);
    var n := off + 1 + |w|;
    Split3(ts, off, [Fixed(KeywordCase)] + w + [t.mark], Yield(t.otherwise), [Fixed(KeywordEnd)]);
    Split3(ts, off, [Fixed(KeywordCase)], w, [t.mark]);
    StandOne(ts, off, Fixed(KeywordCase));
    StandOne(ts, n, t.mark);
    StandOne(ts, n + 1 + |Yield(t.otherwise)|, Fixed(KeywordEnd));
  }

  lemma {:induction false} ReadsCaseElse(ts: seq<Token>, off: nat, t: Tree)
    requires t.CaseElse? && Canonical(t) && Stand(ts, off, Yield(t))
    ensures TokenAt(ts, off) == Fixed(KeywordCase) && ReadCase(ts, off + 1) == Ok(t, off + |Yield(t)|)
    decreases t, 0
  {
    hide ReadExpression, Stand, ReadWhens, EndsBefore, CanonicalWhens, IsSeparator, Canonical, Yield, YieldWhens,
         IsOperator;
    Separators();
    CaseElseStands(ts, off, t);
    var n := off + 1 + |YieldWhens(t.whens)|;
    ReadsWhole(ts, n + 1, t.otherwise);
    ReadsWhens(ts, off + 1, t.whens);
  }

  lemma {:induction false} EndFollows(ws: Whens)
    ensures EndsBefore(ws, KeywordEnd)
    decreases ws
  {
    hide Spelling, IsSeparator, IsOperator;
    Separators();
    if ws.When? {
      SeparatorFollows(ws.value, KeywordEnd);
      EndFollows(ws.rest);
    }
  }
}
