/** Tokens and operator precedence (db/sql/Lexer.hpp:8-113, db/sql/Parser.cpp:1091-1192). */
module Tokens {
  import opened Options

  datatype Kind =
    | KeywordAnd | KeywordBetween | KeywordBy | KeywordCase | KeywordElse | KeywordEnd | KeywordIn | KeywordIs
    | KeywordLike | KeywordMatch | KeywordNot | KeywordNull | KeywordOr | KeywordOver | KeywordPartition
    | KeywordSelect | KeywordThen | KeywordWhen
    | OtherKeyword(word: string)   // the keywords no expression contains
    | Asterisk | Bool | Comma | Date | Exclamation | Float | Identifier | Int | OrderByParam
    | ParenClose | ParenOpen | Period | Semicolon | String
    | OpEqual | OpGreater | OpLess | OpNotEqual | OpAdd | OpSub | OpMul | OpDiv
    | Eof | Garbage

  /** A token; its position in the text is left out. */
  datatype Token = Token(kind: Kind, value: string)

  /** The keyword written `word`, all letters upper case. */
  function KeywordOf(word: string): Option<Kind> {
    match word
    case "AND" => Some(KeywordAnd)
    case "BETWEEN" => Some(KeywordBetween)
    case "BY" => Some(KeywordBy)
    case "CASE" => Some(KeywordCase)
    case "ELSE" => Some(KeywordElse)
    case "END" => Some(KeywordEnd)
    case "IN" => Some(KeywordIn)
    case "IS" => Some(KeywordIs)
    case "LIKE" => Some(KeywordLike)
    case "MATCH" => Some(KeywordMatch)
    case "NOT" => Some(KeywordNot)
    case "NULL" => Some(KeywordNull)
    case "OR" => Some(KeywordOr)
    case "OVER" => Some(KeywordOver)
    case "PARTITION" => Some(KeywordPartition)
    case "SELECT" => Some(KeywordSelect)
    case "THEN" => Some(KeywordThen)
    case "WHEN" => Some(KeywordWhen)
    case "ADD" | "ALL" | "ALTER" | "AS" | "CHECK" | "COLUMN" | "CONSTRAINT" | "CREATE" | "DEFAULT" | "DELETE" |
         "DISTINCT" | "DROP" | "ENGINE" | "EXISTS" | "FROM" | "FOREIGN" | "FULL" | "GROUP" | "HAVING" |
         "IMPORT" | "IF" | "INNER" | "INSERT" | "INTO" | "JOIN" | "KEY" | "ON" | "ORDER" | "OUTER" |
         "PRIMARY" | "PRINT" | "REFERENCES" | "SET" | "SHOW" | "TABLE" | "TABLES" | "TOP" | "TRUNCATE" |
         "UNION" | "UNIQUE" | "UPDATE" | "VALUES" | "WHERE" => Some(OtherKeyword(word))
    case _ => None
  }

  /** `operator_precedence`. The asterisk is a multiplication to the parser, but it is not in this
      table, so it gets the precedence of a kind that is no operator at all. */
  function Precedence(k: Kind): nat {
    match k
    case KeywordIs | KeywordLike | KeywordMatch | OpEqual | OpNotEqual | OpGreater | OpLess => 500
    case KeywordBetween | KeywordIn => 200
    case KeywordAnd => 150
    case KeywordOr => 100
    case OpMul | OpDiv => 15
    case OpAdd | OpSub => 10
    case _ => 100000
  }

  predicate IsBinaryOperator(k: Kind) {
    match k
    case KeywordAnd | KeywordOr | KeywordBetween | KeywordIn | KeywordIs | KeywordLike | KeywordMatch => true
    case OpEqual | OpNotEqual | OpGreater | OpLess => true
    case _ => false
  }

  predicate IsArithmeticOperator(k: Kind) {
    k.OpAdd? || k.OpSub? || k.Asterisk? || k.OpMul? || k.OpDiv?
  }

  predicate IsOperator(k: Kind) {
    IsBinaryOperator(k) || IsArithmeticOperator(k)
  }

  predicate IsLiteral(k: Kind) {
    k.Int? || k.Float? || k.String? || k.Bool? || k.Date? || k.KeywordNull?
  }

  /** The spelling the lexer gives to the fixed tokens of the expression grammar. */
  function Spelling(k: Kind): string {
    match k
    case KeywordAnd => "AND"
    case KeywordBetween => "BETWEEN"
    case KeywordBy => "BY"
    case KeywordCase => "CASE"
    case KeywordElse => "ELSE"
    case KeywordEnd => "END"
    case KeywordIn => "IN"
    case KeywordIs => "IS"
    case KeywordNot => "NOT"
    case KeywordNull => "NULL"
    case KeywordOver => "OVER"
    case KeywordPartition => "PARTITION"
    case KeywordThen => "THEN"
    case KeywordWhen => "WHEN"
    case Comma => ","
    case OpSub => "-"
    case ParenClose => ")"
    case ParenOpen => "("
    case Period => "."
    case _ => ""
  }

  predicate IsFixed(k: Kind) {
    Spelling(k) != ""
  }

  function Fixed(k: Kind): Token {
    Token(k, Spelling(k))
  }

  predicate WellSpelled(t: Token) {
    IsFixed(t.kind) ==> t.value == Spelling(t.kind)
  }

  /** Token lookup; behind the last token there is the end of the input. */
  function TokenAt(ts: seq<Token>, i: nat): Token {
    if i < |ts| then ts[i] else Token(Eof, "EOF")
  }

  function KindAt(ts: seq<Token>, i: nat): Kind {
    TokenAt(ts, i).kind
  }
}
