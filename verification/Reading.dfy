/** What the expression parser reads, as functions of the tokens and a position
    (db/sql/Parser.cpp:890-980, 1119-1128, 1250-1460). */
module Reading {
  import opened Tokens
  import opened Grammar

  /** A value read and the position behind it, or an error. */
  datatype Read<+T> = Ok(value: T, next: nat) | Fail

  ghost function Left(ts: seq<Token>, off: nat): nat {
    if off < |ts| then |ts| - off else 0
  }

  function ReadExpression(ts: seq<Token>, off: nat, min: nat): (r: Read<Tree>)
    ensures r.Ok? ==> off < |ts| && off < r.next
    decreases Left(ts, off), 1
  {
    match ReadPrimary(ts, off)
    case Fail => Fail
    case Ok(t, n) => ReadOperand(ts, n, t, min)
  }

  /** Operators and their right operands, as long as they are tighter than `min`. */
  function ReadOperand(ts: seq<Token>, off: nat, lhs: Tree, min: nat): (r: Read<Tree>)
    ensures r.Ok? ==> off <= r.next
    decreases Left(ts, off), 0
  {
    var k := KindAt(ts, off);
    if !IsOperator(k) || Precedence(k) <= min then Ok(lhs, off)
    else
      match ReadOperation(ts, off + 1, lhs, TokenAt(ts, off))
      case Fail => Fail
      case Ok(t, n) => ReadOperand(ts, n, t, min)
  }

  /** What follows the operator `op`, applied to `lhs`. */
  function ReadOperation(ts: seq<Token>, off: nat, lhs: Tree, op: Token): (r: Read<Tree>)
    ensures r.Ok? ==> off <= r.next
    decreases Left(ts, off), 4
  {
    if op.kind.KeywordBetween? then ReadBetween(ts, off, lhs)
    else if op.kind.KeywordIn? then ReadIn(ts, off, lhs)
    else if op.kind.KeywordIs? then ReadIs(ts, off, lhs)
    else
      match ReadExpression(ts, off, Precedence(op.kind))
      case Fail => Fail
      case Ok(right, n) => Ok(Infix(lhs, op, right), n)
  }

  function ReadBetween(ts: seq<Token>, off: nat, lhs: Tree): (r: Read<Tree>)
    ensures r.Ok? ==> off <= r.next
    decreases Left(ts, off), 3
  {
    match ReadExpression(ts, off, RANGE)
    case Fail => Fail
    case Ok(low, n) =>
      if !KindAt(ts, n).KeywordAnd? then Fail
      else
        match ReadExpression(ts, n + 1, RANGE)
        case Fail => Fail
        case Ok(high, m) => Ok(Between(lhs, low, high), m)
  }

  function ReadIn(ts: seq<Token>, off: nat, lhs: Tree): (r: Read<Tree>)
    ensures r.Ok? ==> off <= r.next
    decreases Left(ts, off), 3
  {
    if !KindAt(ts, off).ParenOpen? then Fail
    else
      match ReadItems(ts, off + 1)
      case Fail => Fail
      case Ok(args, n) => Ok(In(lhs, args), n)
  }

  function ReadIs(ts: seq<Token>, off: nat, lhs: Tree): (r: Read<Tree>)
    ensures r.Ok? ==> off <= r.next
  {
    if KindAt(ts, off).KeywordNull? then Ok(Is(lhs, false), off + 1)
    else if KindAt(ts, off).KeywordNot? && KindAt(ts, off + 1).KeywordNull? then Ok(Is(lhs, true), off + 2)
    else Fail
  }

  function ReadPrimary(ts: seq<Token>, off: nat): (r: Read<Tree>)
    ensures r.Ok? ==> off < |ts| && off < r.next
    decreases Left(ts, off), 0
  {
    match KindAt(ts, off)
    case Identifier => if KindAt(ts, off + 1).ParenOpen? then ReadCall(ts, off) else ReadName(ts, off)
    case OpSub =>
      (match ReadExpression(ts, off + 1, UNARY)
       case Fail => Fail
       case Ok(t, n) => Ok(Minus(t), n))
    case ParenOpen =>
      if KindAt(ts, off + 1).KeywordSelect? then Fail
      else
        (match ReadExpression(ts, off + 1, 0)
         case Fail => Fail
         case Ok(t, n) => Ok(Paren(t, TokenAt(ts, n)), n + 1))
    case KeywordCase => ReadCase(ts, off + 1)
    case _ => if IsConstant(TokenAt(ts, off)) then Ok(Constant(TokenAt(ts, off)), off + 1) else Fail
  }

  function ReadName(ts: seq<Token>, off: nat): (r: Read<Tree>)
    ensures r.Ok? ==> off < r.next
  {
    if !KindAt(ts, off + 1).Period? then Ok(Name(TokenAt(ts, off)), off + 1)
    else if KindAt(ts, off + 2).Identifier? then Ok(Qualified(TokenAt(ts, off), TokenAt(ts, off + 2)), off + 3)
    else Fail
  }

  /** A name at `off`, an opening parenthesis behind it. */
  function ReadCall(ts: seq<Token>, off: nat): (r: Read<Tree>)
    requires off < |ts|
    ensures r.Ok? ==> off < r.next
    decreases Left(ts, off + 1), 4
  {
    var id := TokenAt(ts, off);
    if IsAggregateName(id.value) then
      match ReadExpression(ts, off + 2, 0)
      case Fail => Fail
      case Ok(arg, n) =>
        if !KindAt(ts, n).ParenClose? then Fail
        else if !KindAt(ts, n + 1).KeywordOver? then Ok(Aggregate(id, arg), n + 1)
        else if IsOverClause(ts, n + 1) then Ok(AggregateOver(id, arg, TokenAt(ts, n + 5)), n + 7)
        else Fail
    else if KindAt(ts, off + 2).ParenClose? then Ok(Call(id, []), off + 3)
    else
      match ReadItems(ts, off + 2)
      case Fail => Fail
      case Ok(args, n) => Ok(Call(id, args), n)
  }

  predicate IsOverClause(ts: seq<Token>, off: nat) {
    && KindAt(ts, off).KeywordOver? && KindAt(ts, off + 1).ParenOpen? && KindAt(ts, off + 2).KeywordPartition?
    && KindAt(ts, off + 3).KeywordBy? && KindAt(ts, off + 4).Identifier? && KindAt(ts, off + 5).ParenClose?
  }

  /** One or more expressions, separated by commas, and the closing parenthesis. */
  function ReadItems(ts: seq<Token>, off: nat): (r: Read<seq<Tree>>)
    ensures r.Ok? ==> off < r.next
    decreases Left(ts, off), 2
  {
    match ReadExpression(ts, off, 0)
    case Fail => Fail
    case Ok(t, n) =>
      if KindAt(ts, n).ParenClose? then Ok([t], n + 1)
      else if !KindAt(ts, n).Comma? then Fail
      else
        match ReadItems(ts, n + 1)
        case Fail => Fail
        case Ok(rest, m) => Ok([t] + rest, m)
  }

  /** Behind CASE. */
  function ReadCase(ts: seq<Token>, off: nat): (r: Read<Tree>)
    ensures r.Ok? ==> off < r.next
    decreases Left(ts, off), 3
  {
    match ReadWhens(ts, off)
    case Fail => Fail
    case Ok(whens, n) =>
      if TokenAt(ts, n).value == "ELSE" then
        match ReadExpression(ts, n + 1, 0)
        case Fail => Fail
        case Ok(otherwise, m) =>
          if KindAt(ts, m).KeywordEnd? && TokenAt(ts, m).value != "ELSE"
          then Ok(CaseElse(whens, TokenAt(ts, n), otherwise), m + 1)
          else Fail
      else if KindAt(ts, n).KeywordEnd? then Ok(Case(whens), n + 1)
      else Fail
  }

  function ReadWhens(ts: seq<Token>, off: nat): (r: Read<Whens>)
    ensures r.Ok? ==> off <= r.next
    decreases Left(ts, off), 2
  {
    if !KindAt(ts, off).KeywordWhen? then Ok(NoWhen, off)
    else
      match ReadExpression(ts, off + 1, 0)
      case Fail => Fail
      case Ok(condition, n) =>
        if !KindAt(ts, n).KeywordThen? then Fail
        else
          match ReadExpression(ts, n + 1, 0)
          case Fail => Fail
          case Ok(value, m) =>
            match ReadWhens(ts, m)
            case Fail => Fail
            case Ok(rest, l) => Ok(When(condition, value, rest), l)
  }
}
