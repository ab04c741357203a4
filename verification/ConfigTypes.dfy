/** The scalar kinds a configuration field or list element can have, and their values. */
module ConfigTypes {
  import opened Bytes
  import opened Strconv

  /** int and uint are the 64-bit kinds. */
  datatype Kind =
    | StringK
    | IntK(bits: nat)
    | UintK(bits: nat)
    | FloatK(bits: nat)
    | BoolK
  {
    predicate Valid() {
      (IntK? || UintK? || FloatK?) ==> 0 < bits <= 64
    }
  }

  /** A floating-point value stands for itself: how its text is read is a parameter. */
  datatype Scalar = Text(s: Str) | Number(n: int) | Float(code: int) | Flag(b: bool)

  /** strconv.ParseFloat: text and bit size to the value returned and the error beside it. */
  type FloatParser = (Str, nat) -> Parsed<int>

  /** The value of a kind: its constructor, and for integers its range. */
  predicate Fits(k: Kind, x: Scalar) {
    match k
    case StringK => x.Text?
    case IntK(bits) => bits > 0 && x.Number? && -Pow2(bits - 1) <= x.n < Pow2(bits - 1)
    case UintK(bits) => x.Number? && 0 <= x.n < Pow2(bits)
    case FloatK(_) => x.Float?
    case BoolK => x.Flag?
  }

  function Zero(k: Kind): Scalar {
    match k
    case StringK => Text([])
    case IntK(_) => Number(0)
    case UintK(_) => Number(0)
    case FloatK(_) => Float(0)
    case BoolK => Flag(false)
  }
}
