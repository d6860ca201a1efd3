/** Expressions and how they are written. A tree keeps everything the parser reads, the expression it
    stands for only what the parser builds (db/sql/Parser.cpp:890-980, 1250-1336). */
module Grammar {
  import opened Tokens

  datatype Tree =
    | Name(id: Token)
    | Qualified(table: Token, id: Token)
    | Constant(literal: Token)
    | Call(id: Token, args: seq<Tree>)
    | Aggregate(id: Token, arg: Tree)
    | AggregateOver(id: Token, arg: Tree, partition: Token)
    | Minus(operand: Tree)
    | Paren(inner: Tree, close: Token)
    | Infix(left: Tree, op: Token, right: Tree)
    | Between(left: Tree, low: Tree, high: Tree)
    | In(left: Tree, args: seq<Tree>)
    | Is(left: Tree, negated: bool)
    | Case(whens: Whens)
    | CaseElse(whens: Whens, mark: Token, otherwise: Tree)

  datatype Whens = NoWhen | When(condition: Tree, value: Tree, rest: Whens)

  // ---- The tokens of a tree ----

  function Yield(t: Tree): (r: seq<Token>)
    ensures |r| > 0
    decreases t
  {
    match t
    case Name(id) => [id]
    case Qualified(table, id) => [table, Fixed(Period), id]
    case Constant(literal) => [literal]
    case Call(id, args) => [id, Fixed(ParenOpen)] + YieldList(args) + [Fixed(ParenClose)]
    case Aggregate(id, arg) => [id, Fixed(ParenOpen)] + Yield(arg) + [Fixed(ParenClose)]
    case AggregateOver(id, arg, partition) => [id, Fixed(ParenOpen)] + Yield(arg) + [Fixed(ParenClose)]
        + OverClause(partition)
    case Minus(operand) => [Fixed(OpSub)] + Yield(operand)
    case Paren(inner, close) => [Fixed(ParenOpen)] + Yield(inner) + [close]
    case Infix(left, op, right) => Yield(left) + [op] + Yield(right)
    case Between(left, low, high) => Yield(left) + [Fixed(KeywordBetween)] + Yield(low) + [Fixed(KeywordAnd)]
        + Yield(high)
    case In(left, args) => Yield(left) + [Fixed(KeywordIn), Fixed(ParenOpen)] + YieldList(args) + [Fixed(ParenClose)]
    case Is(left, negated) => Yield(left) + [Fixed(KeywordIs)] + IsClause(negated)
    case Case(whens) => [Fixed(KeywordCase)] + YieldWhens(whens) + [Fixed(KeywordEnd)]
    case CaseElse(whens, mark, otherwise) =>
      [Fixed(KeywordCase)] + YieldWhens(whens) + [mark] + Yield(otherwise) + [Fixed(KeywordEnd)]
  }

  function OverClause(partition: Token): seq<Token> {
    [Fixed(KeywordOver), Fixed(ParenOpen), Fixed(KeywordPartition), Fixed(KeywordBy), partition, Fixed(ParenClose)]
  }

  function IsClause(negated: bool): seq<Token> {
    if negated then [Fixed(KeywordNot), Fixed(KeywordNull)] else [Fixed(KeywordNull)]
  }

  /** Items separated by commas. */
  function YieldList(ts: seq<Tree>): seq<Token>
    decreases ts
  {
    if ts == [] then []
    else if |ts| == 1 then Yield(ts[0])
    else Yield(ts[0]) + [Fixed(Comma)] + YieldList(ts[1..])
  }

  function YieldWhens(ws: Whens): seq<Token>
    decreases ws
  {
    match ws
    case NoWhen => []
    case When(condition, value, rest) =>
      [Fixed(KeywordWhen)] + Yield(condition) + [Fixed(KeywordThen)] + Yield(value) + YieldWhens(rest)
  }

  // ---- Precedence ----

  const LOOSE: nat := 1000000

  /** The loosest operator on the left edge of a tree: what a minimal precedence has to be below for
      the tree to be read as one operand. */
  function Edge(t: Tree): nat {
    match t
    case Infix(left, op, _) => Min(Precedence(op.kind), Edge(left))
    case Between(left, _, _) => Min(Precedence(KeywordBetween), Edge(left))
    case In(left, _) => Min(Precedence(KeywordIn), Edge(left))
    case Is(left, _) => Min(Precedence(KeywordIs), Edge(left))
    case _ => LOOSE
  }

  /** The tightest operator that may follow a tree without becoming part of it. */
  function Reach(t: Tree): nat {
    match t
    case Minus(operand) => Min(UNARY, Reach(operand))
    case Infix(_, op, right) => Min(Precedence(op.kind), Reach(right))
    case Between(_, _, high) => Min(RANGE, Reach(high))
    case _ => LOOSE
  }

  function Min(a: nat, b: nat): nat {
    if a < b then a else b
  }

  const UNARY: nat := 501

  const RANGE: nat := 201

  /** Kinds that would extend the last token of a tree even though they are no operators. */
  predicate Glues(t: Tree, k: Kind) {
    match t
    case Name(_) => k.ParenOpen? || k.Period?
    case Aggregate(_, _) => k.KeywordOver?
    case Minus(operand) => Glues(operand, k)
    case Infix(_, _, right) => Glues(right, k)
    case Between(_, _, high) => Glues(high, k)
    case _ => false
  }

  /** A token of kind `k` right behind `t` is not taken to belong to `t`. */
  predicate Follows(t: Tree, k: Kind) {
    && (IsOperator(k) ==> Precedence(k) <= Reach(t))
    && !Glues(t, k)
  }

  predicate IsInfixOperator(k: Kind) {
    IsOperator(k) && !k.KeywordBetween? && !k.KeywordIn? && !k.KeywordIs?
  }

  function ToUpper(c: char): char {
    if 'a' <= c <= 'z' then ((c as int) - 32) as char else c
  }

  predicate SameWord(a: string, b: string) {
    |a| == |b| && forall i | 0 <= i < |a| :: ToUpper(a[i]) == ToUpper(b[i])
  }

  predicate IsAggregateName(name: string) {
    SameWord(name, "COUNT") || SameWord(name, "SUM") || SameWord(name, "MIN") || SameWord(name, "MAX")
        || SameWord(name, "AVG")
  }

  /** The trees the parser builds: every right operand is tighter than its operator, every left
      operand ends before its operator, and the parts are of the right kinds. */
  predicate Canonical(t: Tree)
    decreases t
  {
    match t
    case Name(id) => id.kind.Identifier?
    case Qualified(table, id) => table.kind.Identifier? && id.kind.Identifier?
    case Constant(literal) => IsConstant(literal)
    case Call(id, args) => id.kind.Identifier? && !IsAggregateName(id.value) && CanonicalList(args)
    case Aggregate(id, arg) => id.kind.Identifier? && IsAggregateName(id.value) && Canonical(arg)
    case AggregateOver(id, arg, partition) =>
      id.kind.Identifier? && IsAggregateName(id.value) && Canonical(arg) && partition.kind.Identifier?
    case Minus(operand) => Canonical(operand) && Edge(operand) > UNARY
    case Paren(inner, close) => Canonical(inner) && !IsOperator(close.kind) && Follows(inner, close.kind)
    case Infix(left, op, right) =>
      && IsInfixOperator(op.kind)
      && Canonical(left) && Follows(left, op.kind)
      && Canonical(right) && Edge(right) > Precedence(op.kind)
    case Between(left, low, high) =>
      && Canonical(left) && Follows(left, KeywordBetween)
      && Canonical(low) && Edge(low) > RANGE && Follows(low, KeywordAnd)
      && Canonical(high) && Edge(high) > RANGE
    case In(left, args) => Canonical(left) && Follows(left, KeywordIn) && args != [] && CanonicalList(args)
    case Is(left, _) => Canonical(left) && Follows(left, KeywordIs)
    case Case(whens) => CanonicalWhens(whens)
    case CaseElse(whens, mark, otherwise) =>
      && CanonicalWhens(whens) && IsElse(mark) && EndsBefore(whens, mark.kind)
      && Canonical(otherwise)
  }

  predicate CanonicalList(ts: seq<Tree>)
    decreases ts
  {
    ts == [] || (Canonical(ts[0]) && CanonicalList(ts[1..]))
  }

  predicate CanonicalWhens(ws: Whens)
    decreases ws
  {
    match ws
    case NoWhen => true
    case When(condition, value, rest) => Canonical(condition) && Canonical(value) && CanonicalWhens(rest)
  }

  /** The parser recognizes ELSE by the value of the token alone, so a string 'ELSE' will do. */
  predicate IsElse(t: Token) {
    t.value == "ELSE" && !t.kind.KeywordWhen?
  }

  /** The last value ends in front of a token of kind `k`. */
  predicate EndsBefore(ws: Whens, k: Kind) {
    match ws
    case NoWhen => true
    case When(_, value, rest) => if rest.NoWhen? then !IsOperator(k) && Follows(value, k) else EndsBefore(rest, k)
  }

  predicate IsConstant(t: Token) {
    IsLiteral(t.kind) && (t.kind.Int? ==> IsInt(t.value)) && (t.kind.Date? ==> IsDate(t.value))
  }

  predicate IsDigit(c: char) {
    '0' <= c <= '9'
  }

  predicate IsDigits(s: string) {
    forall i | 0 <= i < |s| :: IsDigit(s[i])
  }

  function Number(s: string): nat
    requires IsDigits(s)
  {
    if s == "" then 0 else 10 * Number(s[..|s| - 1]) + (s[|s| - 1] as int - '0' as int)
  }

  /** The number in the `n` characters from `i` on is one between `low` and `high`. */
  predicate IsField(s: string, i: nat, n: nat, low: nat, high: nat) {
    i + n <= |s| && IsDigits(s[i..i + n]) && low <= Number(s[i..i + n]) <= high
  }

  /** A text `from_iso8601_string` accepts: a date, with or without a time of day. */
  predicate IsDate(s: string) {
    var d := if |s| == 10 then s + " 00:00:00" else s;
    && 18 <= |d| <= 19
    && IsField(d, 0, 4, 0, 9999) && d[4] == '-' && IsField(d, 5, 2, 1, 12) && d[7] == '-' && IsField(d, 8, 2, 1, 31)
    && var i := |d| - 6;
       && d[10] == ' ' && IsField(d, 11, i - 11, 0, 23)
       && d[i] == ':' && IsField(d, i + 1, 2, 0, 59) && d[i + 3] == ':' && IsField(d, i + 4, 2, 0, 59)
  }

  /** A text `std::stoi` accepts. */
  predicate IsInt(s: string) {
    s != "" && IsDigits(s) && Number(s) < 0x8000_0000
  }
}
