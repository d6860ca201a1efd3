/** The expression parser (db/sql/Parser.cpp:890-980, 1050-1128, 1250-1470). Error messages and
    positions are left out; a failed parse is `None`. */
module ExpressionParser {
  import opened Tokens
  import opened Grammar
  import opened Reading
  import opened Completeness
  import opened Soundness
  import opened Options

  datatype Literal =
    | NullLiteral
    | IntLiteral(n: nat)
    | FloatLiteral(text: string)
    | StringLiteral(text: string)
    | BoolLiteral(b: bool)
    | DateLiteral(text: string)

  datatype BinaryOperation = Equal | NotEqual | Greater | Less | And | Or | Like | Match | InvalidBinary

  datatype ArithmeticOperation = Add | Sub | Mul | Div | InvalidArithmetic

  datatype Expression =
    | IdentifierExpression(name: string, table: Option<string>)
    | LiteralExpression(value: Literal)
    | Function(name: string, args: seq<Expression>)
    | AggregateFunction(aggregate: string, argument: Expression, over: Option<string>)
    | UnaryMinus(operand: Expression)
    | BinaryOperator(left: Expression, binary: BinaryOperation, right: Expression)
    | ArithmeticOperator(left: Expression, arithmetic: ArithmeticOperation, right: Expression)
    | BetweenExpression(left: Expression, min: Expression, max: Expression)
    | InExpression(left: Expression, args: seq<Expression>)
    | IsExpression(left: Expression, notNull: bool)
    | CaseExpression(cases: seq<(Expression, Expression)>, otherwise: Option<Expression>)

  function BinaryOperationOf(k: Kind): BinaryOperation {
    match k
    case OpEqual => Equal
    case OpLess => Less
    case OpGreater => Greater
    case OpNotEqual => NotEqual
    case KeywordLike => Like
    case KeywordMatch => Match
    case KeywordAnd => And
    case KeywordOr => Or
    case _ => InvalidBinary
  }

  function ArithmeticOperationOf(k: Kind): ArithmeticOperation {
    match k
    case OpAdd => Add
    case OpSub => Sub
    case OpMul => Mul
    case Asterisk => Mul
    case OpDiv => Div
    case _ => InvalidArithmetic
  }

  /** The aggregate functions are told apart by name, whatever the case of its letters. */
  function AggregateOf(name: string): string {
    if SameWord(name, "COUNT") then "COUNT"
    else if SameWord(name, "SUM") then "SUM"
    else if SameWord(name, "MIN") then "MIN"
    else if SameWord(name, "MAX") then "MAX"
    else "AVG"
  }

  function LiteralOf(t: Token): Literal {
    match t.kind
    case Int => IntLiteral(if IsDigits(t.value) then Number(t.value) else 0)
    case Float => FloatLiteral(t.value)
    case String => StringLiteral(t.value)
    case Bool => BoolLiteral(t.value == "TRUE")
    case Date => DateLiteral(t.value)
    case _ => NullLiteral
  }

  function Operate(left: Expression, k: Kind, right: Expression): Expression {
    if IsBinaryOperator(k) then BinaryOperator(left, BinaryOperationOf(k), right)
    else ArithmeticOperator(left, ArithmeticOperationOf(k), right)
  }

  /** The expression a tree stands for; parentheses are gone. */
  function Erase(t: Tree): Expression
    decreases t
  {
    match t
    case Name(id) => IdentifierExpression(id.value, None)
    case Qualified(table, id) => IdentifierExpression(id.value, Some(table.value))
    case Constant(literal) => LiteralExpression(LiteralOf(literal))
    case Call(id, args) => Function(id.value, EraseList(args))
    case Aggregate(id, arg) => AggregateFunction(AggregateOf(id.value), Erase(arg), None)
    case AggregateOver(id, arg, partition) => AggregateFunction(AggregateOf(id.value), Erase(arg),
        Some(partition.value))
    case Minus(operand) => UnaryMinus(Erase(operand))
    case Paren(inner, _) => Erase(inner)
    case Infix(left, op, right) => Operate(Erase(left), op.kind, Erase(right))
    case Between(left, low, high) => BetweenExpression(Erase(left), Erase(low), Erase(high))
    case In(left, args) => InExpression(Erase(left), EraseList(args))
    case Is(left, negated) => IsExpression(Erase(left), negated)
    case Case(whens) => CaseExpression(EraseWhens(whens), None)
    case CaseElse(whens, _, otherwise) => CaseExpression(EraseWhens(whens), Some(Erase(otherwise)))
  }

  function EraseList(ts: seq<Tree>): (r: seq<Expression>)
    ensures |r| == |ts|
    decreases ts
  {
    if ts == [] then [] else [Erase(ts[0])] + EraseList(ts[1..])
  }

  function EraseWhens(ws: Whens): seq<(Expression, Expression)>
    decreases ws
  {
    match ws
    case NoWhen => []
    case When(condition, value, rest) => [(Erase(condition), Erase(value))] + EraseWhens(rest)
  }

  /** The parser's answer for a reading. */
  ghost function Answer(r: Read<Tree>): Option<Expression> {
    if r.Ok? then Some(Erase(r.value)) else None
  }

  /** The argument list of a function call: empty, or items. */
  function ReadList(ts: seq<Token>, off: nat): Read<seq<Tree>> {
    if !KindAt(ts, off).ParenOpen? then Fail
    else if KindAt(ts, off + 1).ParenClose? then Ok([], off + 2)
    else ReadItems(ts, off + 1)
  }

  /** Behind an expression there is no operator tighter than the minimal precedence it was read with. */
  lemma {:induction false} NothingTighter(ts: seq<Token>, off: nat, lhs: Tree, min: nat)
    requires ReadOperand(ts, off, lhs, min).Ok?
    ensures var k := KindAt(ts, ReadOperand(ts, off, lhs, min).next); IsOperator(k) ==> Precedence(k) <= min
    decreases Left(ts, off)
  {
    hide Precedence, ReadOperation;
    var k := KindAt(ts, off);
    if IsOperator(k) && Precedence(k) > min {
      var r := ReadOperation(ts, off + 1, lhs, TokenAt(ts, off));
      NothingTighter(ts, r.next, r.value, min);
    }
  }

  lemma NothingTighterBehind(ts: seq<Token>, off: nat, min: nat)
    requires ReadExpression(ts, off, min).Ok?
    ensures var k := KindAt(ts, ReadExpression(ts, off, min).next); IsOperator(k) ==> Precedence(k) <= min
  {
    hide Precedence, ReadOperand, ReadPrimary, IsOperator;
    var p := ReadPrimary(ts, off);
    NothingTighter(ts, p.next, p.value, min);
  }

  /** What stands right of an operator. */
  datatype Rhs =
    | Range(min: Expression, max: Expression)
    | Items(args: seq<Expression>)
    | What(notNull: bool)
    | Operand(operand: Expression)

  ghost function RhsOf(t: Tree): Rhs
    requires !IsPrimary(t)
  {
    match t
    case Between(_, low, high) => Range(Erase(low), Erase(high))
    case In(_, args) => Items(EraseList(args))
    case Is(_, negated) => What(negated)
    case Infix(_, _, right) => Operand(Erase(right))
  }

  function Combine(left: Expression, k: Kind, rhs: Rhs): Expression {
    match rhs
    case Range(min, max) => BetweenExpression(left, min, max)
    case Items(args) => InExpression(left, args)
    case What(notNull) => IsExpression(left, notNull)
    case Operand(operand) => Operate(left, k, operand)
  }

  lemma OperationRoot(ts: seq<Token>, off: nat, lhs: Tree, op: Token)
    requires ReadOperation(ts, off, lhs, op).Ok?
    ensures var t := ReadOperation(ts, off, lhs, op).value;
            && !IsPrimary(t) && t.left == lhs && Erase(t) == Combine(Erase(lhs), op.kind, RhsOf(t))
            && (t.Infix? ==> !op.kind.KeywordBetween?)
  {
    hide ReadExpression, ReadItems, Precedence, Spelling, Erase, RhsOf, ReadBetween, ReadIn, ReadIs;
    KeywordRoot(ts, off, lhs);
    CombinedAgain(ReadOperation(ts, off, lhs, op).value, op.kind);
  }

  lemma KeywordRoot(ts: seq<Token>, off: nat, lhs: Tree)
    ensures var r := ReadBetween(ts, off, lhs); r.Ok? ==> r.value.Between? && r.value.left == lhs
    ensures var r := ReadIn(ts, off, lhs); r.Ok? ==> r.value.In? && r.value.left == lhs
    ensures var r := ReadIs(ts, off, lhs); r.Ok? ==> r.value.Is? && r.value.left == lhs
  {
    hide ReadExpression, ReadItems, Precedence, Spelling;
  }

  lemma CombinedAgain(t: Tree, k: Kind)
    requires !IsPrimary(t) && (t.Infix? ==> t.op.kind == k)
    ensures Erase(t) == Combine(Erase(t.left), k, RhsOf(t))
  {
  }

  /** When the operator behind a right operand is tighter than the one in front of it, it is no
      operator at all. So merging further operators into the right operand, as the parser tries to do
      in that case, consumes nothing and gives the operand back. */
  lemma RightMergeIsRedundant(ts: seq<Token>, off: nat, lhs: Tree, op: Token)
    requires ReadOperation(ts, off, lhs, op).Ok?
    ensures var r := ReadOperation(ts, off, lhs, op);
            (r.value.Infix? || r.value.Between?) && Precedence(op.kind) < Precedence(KindAt(ts, r.next)) ==>
              !IsOperator(KindAt(ts, r.next)) && forall t, min :: ReadOperand(ts, r.next, t, min) == Ok(t, r.next)
  {
    hide ReadExpression, ReadItems, Precedence, Spelling, IsOperator;
    var r := ReadOperation(ts, off, lhs, op);
    NoRangePrecedence(KindAt(ts, r.next));
    if r.value.Infix? {
      NothingTighterBehind(ts, off, Precedence(op.kind));
    } else if r.value.Between? {
      NothingTighterBehind(ts, ReadExpression(ts, off, RANGE).next + 1, RANGE);
    }
  }

  lemma NoRangePrecedence(k: Kind)
    ensures Precedence(KeywordBetween) + 1 == RANGE && Precedence(k) != RANGE
  {
  }

  class Parser {
    const tokens: seq<Token>
    var offset: nat

    constructor (tokens: seq<Token>)
      ensures this.tokens == tokens && offset == 0
    {
      this.tokens := tokens;
      offset := 0;
    }

    /** Returns the current token and steps over it. */
    method Advance() returns (t: Token)
      modifies this
      ensures t == TokenAt(tokens, old(offset)) && offset == old(offset) + 1
    {
      t := TokenAt(tokens, offset);
      offset := offset + 1;
    }

    method ParseExpression(min: nat) returns (r: Option<Expression>)
      modifies this
      ensures var s := ReadExpression(tokens, old(offset), min); r == Answer(s) && (s.Ok? ==> offset == s.next)
      decreases Left(tokens, offset), 4
    {
      hide ReadPrimary, ReadOperand, Precedence, Erase;
      ghost var start := offset;
      var lhs := ParsePrimary();
      if lhs.None? {
        return None;
      }
      r := ParseOperand(lhs.value, min, ReadPrimary(tokens, start).value);
    }

    /** The part of `parse_expression` in front of the operators. */
    method ParsePrimary() returns (r: Option<Expression>)
      modifies this
      ensures var s := ReadPrimary(tokens, old(offset)); r == Answer(s) && (s.Ok? ==> offset == s.next)
      decreases Left(tokens, offset), 3
    {
      hide ReadExpression, ReadCall, ReadName, ReadCase, IsInt, Precedence, Spelling;
      var token := TokenAt(tokens, offset);
      if token.kind.Identifier? {
        if KindAt(tokens, offset + 1).ParenOpen? {
          offset := offset + 1;
          r := ParseFunction(token.value);
        } else {
          r := ParseIdentifier();
        }
      } else if token.kind.OpSub? {
        offset := offset + 1;
        var operand := ParseExpression(UNARY);
        r := if operand.Some? then Some(UnaryMinus(operand.value)) else None;
      } else if token.kind.ParenOpen? {
        if KindAt(tokens, offset + 1).KeywordSelect? {
          return None;   // a sub-SELECT
        }
        offset := offset + 1;
        r := ParseExpression(0);
        var close := Advance();   // the error for a missing parenthesis is made, and dropped
      } else if token.kind.KeywordCase? {
        r := ParseCase();
      } else if IsLiteral(token.kind) {
        r := ParseLiteral();
      } else {
        return None;
      }
    }

    /** `parse_operand`. */
    method ParseOperand(left: Expression, min: nat, ghost tree: Tree) returns (r: Option<Expression>)
      requires left == Erase(tree)
      modifies this
      ensures var s := ReadOperand(tokens, old(offset), tree, min); r == Answer(s) && (s.Ok? ==> offset == s.next)
      decreases Left(tokens, offset), 3
    {
      hide ReadOperation, Precedence, IsOperator, Erase, Spelling;
      var lhs := left;
      ghost var t := tree;
      while true
        invariant lhs == Erase(t) && old(offset) <= offset
        invariant ReadOperand(tokens, offset, t, min) == ReadOperand(tokens, old(offset), tree, min)
        decreases Left(tokens, offset)
      {
        var current := TokenAt(tokens, offset);
        if !IsOperator(current.kind) || Precedence(current.kind) <= min {
          return Some(lhs);
        }
        OperatorIsReal(tokens, offset);
        offset := offset + 1;
        ghost var s := ReadOperation(tokens, offset, t, current);
        var rhs := ParseRhs(current, t);
        if rhs.None? {
          return None;
        }
        if Precedence(current.kind) < Precedence(KindAt(tokens, offset)) {
          rhs := MergeRight(rhs.value, s.value);
        }
        lhs := Combine(lhs, current.kind, rhs.value);
        t := s.value;
      }
    }

    /** Lets the right operand take the operators behind it; there are none. */
    method MergeRight(rhs: Rhs, ghost t: Tree) returns (r: Option<Rhs>)
      requires !IsPrimary(t) && rhs == RhsOf(t)
      requires t.Infix? || t.Between? ==> !IsOperator(KindAt(tokens, offset))
      modifies this
      ensures r == Some(rhs) && offset == old(offset)
      decreases Left(tokens, offset), 4
    {
      hide Precedence, IsOperator, Erase, Spelling;
      match rhs
      case Range(min, max) =>
        var m := ParseOperand(max, 0, t.high);
        r := if m.Some? then Some(Range(min, m.value)) else None;
      case Operand(operand) =>
        var m := ParseOperand(operand, 0, t.right);
        r := if m.Some? then Some(Operand(m.value)) else None;
      case _ => r := Some(rhs);
    }

    /** Behind the operator `op`. */
    method ParseRhs(op: Token, ghost lhs: Tree) returns (r: Option<Rhs>)
      modifies this
      ensures var s := ReadOperation(tokens, old(offset), lhs, op);
              && (r.Some? <==> s.Ok?)
              && (s.Ok? ==>
                    && !IsPrimary(s.value) && r.value == RhsOf(s.value) && offset == s.next
                    && Erase(s.value) == Combine(Erase(lhs), op.kind, r.value)
                    && ((s.value.Infix? || s.value.Between?)
                          && Precedence(op.kind) < Precedence(KindAt(tokens, offset)) ==>
                          !IsOperator(KindAt(tokens, offset))))
      decreases Left(tokens, offset), 6
    {
      hide ReadExpression, ReadItems, Precedence, IsOperator, Erase, Spelling, ReadBetween, ReadIn, ReadIs, Combine;
      ghost var s := ReadOperation(tokens, offset, lhs, op);
      if s.Ok? {
        OperationRoot(tokens, offset, lhs, op);
        RightMergeIsRedundant(tokens, offset, lhs, op);
      }
      if op.kind.KeywordBetween? {
        r := ParseBetweenRange(lhs);
      } else if op.kind.KeywordIn? {
        r := ParseIn(lhs);
      } else if op.kind.KeywordIs? {
        r := ParseIs(lhs);
      } else {
        var e := ParseExpression(Precedence(op.kind));
        r := if e.Some? then Some(Operand(e.value)) else None;
      }
    }

    /** CASE, with any number of WHEN branches and at most one ELSE, which has to be the last. */
    method ParseCase() returns (r: Option<Expression>)
      requires KindAt(tokens, offset).KeywordCase?
      modifies this
      ensures var s := ReadCase(tokens, old(offset) + 1); r == Answer(s) && (s.Ok? ==> offset == s.next)
      decreases Left(tokens, offset), 2
    {
      hide ReadExpression, ReadCase, Spelling, Erase, CaseSoFar;
      offset := offset + 1;
      ghost var start := offset;
      var cases: seq<(Expression, Expression)> := [];
      var otherwise: Option<Expression> := None;
      CaseStart(tokens, start);
      while true
        invariant old(offset) < |tokens| && start <= offset
        invariant CaseSoFar(tokens, start, cases, otherwise, offset)
        decreases Left(tokens, offset)
      {
        var postfix := TokenAt(tokens, offset);
        CaseBranch(tokens, start, cases, otherwise, offset);
        CaseEnd(tokens, start, cases, otherwise, offset);
        if postfix.kind.KeywordWhen? {
          offset := offset + 1;
          if otherwise.Some? {
            return None;
          }
          var condition := ParseExpression(0);
          if condition.None? {
            return None;
          }
          var keyword := Advance();
          if !keyword.kind.KeywordThen? {
            return None;
          }
          var value := ParseExpression(0);
          if value.None? {
            return None;
          }
          cases := cases + [(condition.value, value.value)];
        } else if postfix.value == "ELSE" {
          offset := offset + 1;
          if otherwise.Some? {
            return None;
          }
          otherwise := ParseExpression(0);
          if otherwise.None? {
            return None;
          }
        } else if postfix.kind.KeywordEnd? {
          offset := offset + 1;
          return Some(CaseExpression(cases, otherwise));
        } else {
          return None;
        }
      }
    }

    method ParseLiteral() returns (r: Option<Expression>)
      modifies this
      ensures var t := TokenAt(tokens, old(offset));
              if IsConstant(t) then r == Some(LiteralExpression(LiteralOf(t))) && offset == old(offset) + 1 else r.None?
    {
      hide Spelling;
      var token := TokenAt(tokens, offset);
      if !IsLiteral(token.kind) {
        return None;
      }
      if (token.kind.Int? && !IsInt(token.value)) || (token.kind.Date? && !IsDate(token.value)) {
        return None;   // a number that does not fit an int, or no date
      }
      offset := offset + 1;
      r := Some(LiteralExpression(LiteralOf(token)));
    }

    method ParseIdentifier() returns (r: Option<Expression>)
      modifies this
      ensures KindAt(tokens, old(offset)).Identifier? ==>
                var s := ReadName(tokens, old(offset)); r == Answer(s) && (s.Ok? ==> offset == s.next)
    {
      hide Spelling;
      var name := Advance();
      if !name.kind.Identifier? {
        return None;
      }
      if KindAt(tokens, offset).Period? {
        offset := offset + 1;
        var column := Advance();
        return if column.kind.Identifier? then Some(IdentifierExpression(column.value, Some(name.value))) else None;
      }
      return Some(IdentifierExpression(name.value, None));
    }

    /** At the parenthesis behind a name. */
    method ParseFunction(name: string) returns (r: Option<Expression>)
      requires 0 < offset <= |tokens| && TokenAt(tokens, offset - 1).value == name && KindAt(tokens, offset).ParenOpen?
      modifies this
      ensures var s := ReadCall(tokens, old(offset) - 1); r == Answer(s) && (s.Ok? ==> offset == s.next)
      decreases Left(tokens, offset), 2
    {
      hide ReadExpression, ReadItems, IsAggregateName, AggregateOf, Spelling;
      ghost var start := offset;
      if IsAggregateName(name) {
        offset := offset + 1;
        var e := ParseExpression(0);
        if e.None? {
          return None;
        }
        var close := Advance();
        if !close.kind.ParenClose? {
          return None;
        }
        if !KindAt(tokens, offset).KeywordOver? {
          return Some(AggregateFunction(AggregateOf(name), e.value, None));
        }
        var over := ParseOver();
        return if over.Some? then Some(AggregateFunction(AggregateOf(name), e.value, over)) else None;
      }
      var args := ParseExpressionList();
      r := if args.Some? then Some(Function(name, args.value)) else None;
    }

    /** OVER (PARTITION BY identifier). */
    method ParseOver() returns (r: Option<string>)
      requires KindAt(tokens, offset).KeywordOver?
      modifies this
      ensures r == if IsOverClause(tokens, old(offset)) then Some(TokenAt(tokens, old(offset) + 4).value) else None
      ensures r.Some? ==> offset == old(offset) + 6
    {
      hide Spelling;
      offset := offset + 1;
      var t := Advance();
      if !t.kind.ParenOpen? {
        return None;
      }
      t := Advance();
      if !t.kind.KeywordPartition? {
        return None;
      }
      t := Advance();
      if !t.kind.KeywordBy? {
        return None;
      }
      var identifier := Advance();
      if !identifier.kind.Identifier? {
        return None;
      }
      t := Advance();
      return if t.kind.ParenClose? then Some(identifier.value) else None;
    }

    method ParseExpressionList() returns (r: Option<seq<Expression>>)
      modifies this
      ensures var s := ReadList(tokens, old(offset));
              (r.Some? <==> s.Ok?) && (s.Ok? ==> r.value == EraseList(s.value) && offset == s.next)
      decreases Left(tokens, offset), 1
    {
      hide ReadExpression, Spelling, Erase, ReadItems, Continues;
      if !KindAt(tokens, offset).ParenOpen? {
        return None;
      }
      offset := offset + 1;
      if KindAt(tokens, offset).ParenClose? {
        offset := offset + 1;
        return Some([]);
      }
      ghost var all := ReadItems(tokens, offset);
      ItemsStart(all);
      var args: seq<Expression> := [];
      while true
        invariant old(offset) < |tokens| && old(offset) < offset && Continues(all, args, ReadItems(tokens, offset))
        decreases Left(tokens, offset)
      {
        ItemRead(tokens, offset, all, args);
        var e := ParseExpression(0);
        if e.None? {
          return None;
        }
        args := args + [e.value];
        if KindAt(tokens, offset).ParenClose? {
          offset := offset + 1;
          break;
        }
        if !KindAt(tokens, offset).Comma? {
          return None;
        }
        offset := offset + 1;
      }
      return Some(args);
    }

    /** Behind IN. */
    method ParseIn(ghost lhs: Tree) returns (r: Option<Rhs>)
      modifies this
      ensures var s := ReadIn(tokens, old(offset), lhs);
                (r.Some? <==> s.Ok?) && (s.Ok? ==>
                      s.value.In? && r.value == Items(EraseList(s.value.args)) && offset == s.next)
      decreases Left(tokens, offset), 5
    {
      hide ReadExpression, Spelling, Erase, EraseList, ReadItems, Continues;
      var open := Advance();
      if !open.kind.ParenOpen? {
        return None;
      }
      ghost var all := ReadItems(tokens, offset);
      ItemsStart(all);
      var args: seq<Expression> := [];
      while true
        invariant old(offset) < |tokens| && old(offset) < offset && Continues(all, args, ReadItems(tokens, offset))
        decreases Left(tokens, offset)
      {
        ItemRead(tokens, offset, all, args);
        var e := ParseExpression(0);
        if e.None? {
          return None;
        }
        args := args + [e.value];
        if !KindAt(tokens, offset).Comma? {
          if !KindAt(tokens, offset).ParenClose? {
            return None;
          }
          offset := offset + 1;
          break;
        }
        offset := offset + 1;
      }
      return Some(Items(args));
    }

    /** Behind IS. */
    method ParseIs(ghost lhs: Tree) returns (r: Option<Rhs>)
      modifies this
      ensures var s := ReadIs(tokens, old(offset), lhs);
                (r.Some? <==> s.Ok?) && (s.Ok? ==> s.value.Is? && r.value == What(s.value.negated) && offset == s.next)
    {
      hide Spelling;
      var token := Advance();
      if token.kind.KeywordNull? {
        return Some(What(false));
      }
      if token.kind.KeywordNot? {
        token := Advance();
        if token.kind.KeywordNull? {
          return Some(What(true));
        }
      }
      return None;
    }

    /** Behind BETWEEN. */
    method ParseBetweenRange(ghost lhs: Tree) returns (r: Option<Rhs>)
      modifies this
      ensures var s := ReadBetween(tokens, old(offset), lhs);
                (r.Some? <==> s.Ok?) && (s.Ok? ==>
                      s.value.Between? && r.value == Range(Erase(s.value.low), Erase(s.value.high)) && offset == s.next)
      decreases Left(tokens, offset), 5
    {
      hide ReadExpression, Spelling, Erase;
      var min := ParseExpression(Precedence(KeywordBetween) + 1);
      if min.None? {
        return None;
      }
      var and := Advance();
      if !and.kind.KeywordAnd? {
        return None;
      }
      var max := ParseExpression(Precedence(KeywordBetween) + 1);
      return if max.Some? then Some(Range(min.value, max.value)) else None;
    }
  }

  /** The state of the loop over the branches of a CASE: which branches were read, whether ELSE was,
      and that the next token is at `n`. */
  ghost predicate CaseSoFar(ts: seq<Token>, start: nat, cases: seq<(Expression, Expression)>,
                            otherwise: Option<Expression>, n: nat) {
    var all := ReadWhens(ts, start);
    if otherwise.None? then
      var rest := ReadWhens(ts, n);
      && (all.Ok? <==> rest.Ok?)
      && (all.Ok? ==> EraseWhens(all.value) == cases + EraseWhens(rest.value) && all.next == rest.next)
    else
      && all.Ok? && EraseWhens(all.value) == cases && TokenAt(ts, all.next).value == "ELSE"
      && var e := ReadExpression(ts, all.next + 1, 0);
         e.Ok? && otherwise.value == Erase(e.value) && n == e.next
  }

  lemma CaseStart(ts: seq<Token>, start: nat)
    ensures CaseSoFar(ts, start, [], None, start)
  {
    hide ReadWhens, EraseWhens;
  }

  /** A WHEN branch is read, or the whole CASE cannot be read. */
  lemma CaseBranch(ts: seq<Token>, start: nat, cases: seq<(Expression, Expression)>, otherwise: Option<Expression>,
                   n: nat)
    requires CaseSoFar(ts, start, cases, otherwise, n)
    ensures KindAt(ts, n).KeywordWhen? ==>
              var c := ReadExpression(ts, n + 1, 0);
              if otherwise.None? && c.Ok? && KindAt(ts, c.next).KeywordThen? && ReadExpression(ts, c.next + 1, 0).Ok?
              then
                var v := ReadExpression(ts, c.next + 1, 0);
                CaseSoFar(ts, start, cases + [(Erase(c.value), Erase(v.value))], None, v.next)
              else ReadCase(ts, start).Fail?
  {
    hide ReadExpression, Erase, Spelling;
  }

  /** Without WHEN, the CASE goes on with its only ELSE, or ends, or cannot be read. */
  lemma CaseEnd(ts: seq<Token>, start: nat, cases: seq<(Expression, Expression)>, otherwise: Option<Expression>, n: nat)
    requires CaseSoFar(ts, start, cases, otherwise, n)
    ensures !KindAt(ts, n).KeywordWhen? && TokenAt(ts, n).value == "ELSE" ==>
              var e := ReadExpression(ts, n + 1, 0);
              if otherwise.None? && e.Ok? then CaseSoFar(ts, start, cases, Some(Erase(e.value)), e.next)
              else ReadCase(ts, start).Fail?
    ensures !KindAt(ts, n).KeywordWhen? && TokenAt(ts, n).value != "ELSE" ==>
              var r := ReadCase(ts, start);
              if KindAt(ts, n).KeywordEnd? then r.Ok? && Erase(r.value) == CaseExpression(cases, otherwise)
                  && r.next == n + 1
              else r.Fail?
  {
    hide ReadExpression, Spelling;
  }

  lemma ItemsStart(all: Read<seq<Tree>>)
    ensures Continues(all, [], all)
  {
  }

  /** One item is read, or the whole list cannot be read. */
  lemma ItemRead(ts: seq<Token>, off: nat, all: Read<seq<Tree>>, done: seq<Expression>)
    requires Continues(all, done, ReadItems(ts, off))
    ensures var e := ReadExpression(ts, off, 0);
            && (e.Fail? ==> all.Fail?)
            && (e.Ok? ==>
                  var now := done + [Erase(e.value)];
                  if KindAt(ts, e.next).ParenClose? then all.Ok? && EraseList(all.value) == now
                      && all.next == e.next + 1
                  else if KindAt(ts, e.next).Comma? then Continues(all, now, ReadItems(ts, e.next + 1))
                  else all.Fail?)
  {
    hide ReadExpression, Spelling, Erase;
    var e := ReadExpression(ts, off, 0);
    if e.Ok? && KindAt(ts, e.next).ParenClose? {
      OneErased(e.value);
    } else if ReadItems(ts, off).Ok? {
      var items := ReadItems(ts, off).value;
      assert items[1..] == ReadItems(ts, e.next + 1).value;
    }
  }

  lemma OneErased(t: Tree)
    ensures EraseList([t]) == [Erase(t)]
  {
    hide Erase;
    assert EraseList([t][1..]) == [];
  }

  /** `all` is `done` followed by what is still to be read. */
  ghost predicate Continues(all: Read<seq<Tree>>, done: seq<Expression>, rest: Read<seq<Tree>>) {
    && (all.Ok? <==> rest.Ok?)
    && (all.Ok? ==> EraseList(all.value) == done + EraseList(rest.value) && all.next == rest.next)
  }
}
