/** Core::Value and Core::Tuple (db/core/Value.hpp, db/core/Tuple.hpp). Strings are byte strings;
    a float is its 32 bits. */
module Values {
  import opened Bytes

  datatype Date = Date(year: int, month: int, day: int, hour: int, min: int, sec: int)

  datatype Value =
    | Null
    | Int(i: int)
    | Float(bits: nat)
    | Varchar(s: seq<byte>)
    | Bool(b: bool)
    | Time(t: Date)

  type Tuple = seq<Value>

  datatype ValueType = IntType | FloatType | VarcharType | BoolType | TimeType

  predicate HasType(v: Value, t: ValueType) {
    match t
    case IntType => v.Int?
    case FloatType => v.Float?
    case VarcharType => v.Varchar?
    case BoolType => v.Bool?
    case TimeType => v.Time?
  }

  /** A C++ `int` and the bits of a C++ `float` have 32 bits. */
  predicate InRange(v: Value) {
    match v
    case Int(i) => -0x8000_0000 <= i < 0x8000_0000
    case Float(bits) => bits < U32_LIMIT
    case _ => true
  }
}
