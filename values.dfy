/**
 * `VxdValue` and the per-type coercion of a declaration's trimmed raw text (the `match vtype`
 * in `VxdeParser::from_file`).
 */
module Values {
  import opened Wrappers
  import opened Numbers

  const I32Min: int := -0x8000_0000
  const I32Max: int := 0x7FFF_FFFF
  const I64Min: int := -0x8000_0000_0000_0000
  const I64Max: int := 0x7FFF_FFFF_FFFF_FFFF
  const U32Max: int := 0xFFFF_FFFF
  const U64Max: int := 0xFFFF_FFFF_FFFF_FFFF

  type Int32 = n: int | I32Min <= n <= I32Max
  type Int64 = n: int | I64Min <= n <= I64Max
  type UInt32 = n: int | 0 <= n <= U32Max
  type UInt64 = n: int | 0 <= n <= U64Max

  /** A parsed value. Floating-point payloads are kept as their IEEE 754 bit patterns. */
  datatype Value =
    | String(text: string)
    | I32(i32: Int32)
    | I64(i64: Int64)
    | U32(u32: UInt32)
    | U64(u64: UInt64)
    | F32(f32: bv32)
    | F64(f64: bv64)
    | Bool(b: bool)
    | Char(c: char)
    | Null

  /** Rust's `str::parse::<f32>` and `str::parse::<f64>`, which this model does not interpret. */
  datatype FloatParsers = FloatParsers(parseF32: string -> Option<bv32>, parseF64: string -> Option<bv64>)

  /** The type names the coercion has an arm for. */
  const TypeNames: set<string> := {"string", "i32", "i64", "u32", "u64", "f32", "f64", "bool", "char"}

  /** The value is of the type `vtype` names, or is `Null`. */
  predicate OfType(v: Value, vtype: string) {
    match v
    case String(_) => vtype == "string"
    case I32(_) => vtype == "i32"
    case I64(_) => vtype == "i64"
    case U32(_) => vtype == "u32"
    case U64(_) => vtype == "u64"
    case F32(_) => vtype == "f32"
    case F64(_) => vtype == "f64"
    case Bool(_) => vtype == "bool"
    case Char(_) => vtype == "char"
    case Null => true
  }

  /** Turns a declaration's type name and trimmed raw text into a value. A text that does not
      parse under the type gives `Null`; only a type name without an arm is an error. */
  function Coerce(vtype: string, value: string, floats: FloatParsers): (r: Result<Value, string>)
    ensures r.Err? <==> vtype !in TypeNames
    ensures r.Err? ==> r.error == "Unsupported type: " + vtype
    ensures r.Ok? ==> OfType(r.value, vtype)
  {
    match vtype
    case "string" => Ok(if value == "null" || value == [] then Null else String(value))
    case "i32" => Ok(match ParseInt(value, I32Min, I32Max) case Some(n) => I32(n) case None => Null)
    case "i64" => Ok(match ParseInt(value, I64Min, I64Max) case Some(n) => I64(n) case None => Null)
    case "u32" => Ok(match ParseInt(value, 0, U32Max) case Some(n) => U32(n) case None => Null)
    case "u64" => Ok(match ParseInt(value, 0, U64Max) case Some(n) => U64(n) case None => Null)
    case "f32" => Ok(match floats.parseF32(value) case Some(x) => F32(x) case None => Null)
    case "f64" => Ok(match floats.parseF64(value) case Some(x) => F64(x) case None => Null)
    case "bool" => Ok(if value == "true" then Bool(true) else if value == "false" then Bool(false) else Null)
    case "char" => Ok(if value == [] then Null else Char(value[0]))
    case _ => Err("Unsupported type: " + vtype)
  }

  /** A `string` declaration keeps its text as it is, quotes included; only an empty text and
      the word `null` give `Null`. */
  lemma StringCoercion(value: string, floats: FloatParsers)
    ensures Coerce("string", value, floats).Ok?
    ensures Coerce("string", value, floats).value.Null? <==> value == [] || value == "null"
    ensures Coerce("string", value, floats).value.String? ==> Coerce("string", value, floats).value.text == value
  {
  }

  /** The bounds of the integer type a type name denotes. */
  function IntBounds(vtype: string): (b: (int, int))
    requires vtype in {"i32", "i64", "u32", "u64"}
    ensures b.0 <= 0 < b.1
  {
    match vtype
    case "i32" => (I32Min, I32Max)
    case "i64" => (I64Min, I64Max)
    case "u32" => (0, U32Max)
    case "u64" => (0, U64Max)
  }

  /** The number an integer value carries. */
  function IntPayload(v: Value): int
    requires v.I32? || v.I64? || v.U32? || v.U64?
  {
    match v
    case I32(n) => n
    case I64(n) => n
    case U32(n) => n
    case U64(n) => n
  }

  /** An integer declaration holds a number exactly when its text is an integer literal (a `-`
      only for the signed types) whose value fits the type, and then holds that value; anything
      else, overflow included, is `Null` and never an error. */
  lemma IntegerCoercion(vtype: string, value: string, floats: FloatParsers)
    requires vtype in {"i32", "i64", "u32", "u64"}
    ensures Coerce(vtype, value, floats).Ok?
    ensures var (lo, hi) := IntBounds(vtype);
      var v := Coerce(vtype, value, floats).value;
      (v.Null? <==> !(IsIntLiteral(value, lo < 0) && lo <= LiteralValue(value, lo < 0) <= hi)) &&
      (!v.Null? ==> IntPayload(v) == LiteralValue(value, lo < 0))
  {
    var (lo, hi) := IntBounds(vtype);
    ParseIntCorrect(value, lo, hi);
  }

  /** A `bool` declaration holds `b` exactly when its text is the word for `b`, and is `Null`
      for every other text. */
  lemma {:induction false} BoolCoercion(value: string, floats: FloatParsers, b: bool)
    ensures Coerce("bool", value, floats) == Ok(Bool(b)) <==> value == (if b then "true" else "false")
    ensures Coerce("bool", value, floats).Ok?
    ensures Coerce("bool", value, floats).value.Null? <==> value != "true" && value != "false"
  {
  }

  /** A `char` declaration holds the first character of its text, even when the text is `null`
      or a quoted character; only an empty text gives `Null`. */
  lemma CharCoercion(value: string, floats: FloatParsers)
    ensures Coerce("char", value, floats).Ok?
    ensures Coerce("char", value, floats).value.Null? <==> value == []
    ensures value != [] ==> Coerce("char", value, floats).value == Char(value[0])
    ensures Coerce("char", "null", floats).value == Char('n')
  {
  }

  /** The float parsers reject the empty text and `null`, as Rust's float parsing does. */
  predicate RejectsEmptyAndNull(floats: FloatParsers) {
    floats.parseF32([]).None? && floats.parseF32("null").None? &&
    floats.parseF64([]).None? && floats.parseF64("null").None?
  }

  /** An empty text gives `Null` under every type; so does `null`, under every type but `char`. */
  lemma NullForEveryType(vtype: string, floats: FloatParsers)
    requires vtype in TypeNames
    requires RejectsEmptyAndNull(floats)
    ensures Coerce(vtype, [], floats) == Ok(Null)
    ensures vtype != "char" ==> Coerce(vtype, "null", floats) == Ok(Null)
  {
    if vtype in {"i32", "i64", "u32", "u64"} {
      var (lo, hi) := IntBounds(vtype);
      ParseIntCorrect([], lo, hi);
      ParseIntCorrect("null", lo, hi);
      assert !IsDigit('n');
    }
  }
}
