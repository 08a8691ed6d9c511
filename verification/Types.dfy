// Column types, comparisons and machine ranges (include/columnar/types.h).
module Types {
  const TWO_31: int := 0x8000_0000
  const TWO_32: int := 0x1_0000_0000
  const TWO_63: int := 0x8000_0000_0000_0000
  const TWO_64: int := 0x1_0000_0000_0000_0000

  datatype DataType = Int32 | Int64

  function TypeSize(t: DataType): nat { if t.Int32? then 4 else 8 }

  /** 2^width of the type */
  function Modulus(t: DataType): int { if t.Int32? then TWO_32 else TWO_64 }

  /** 2^(width - 1): the values run from -HalfRange to HalfRange - 1 */
  function HalfRange(t: DataType): int { if t.Int32? then TWO_31 else TWO_63 }

  predicate InRange(t: DataType, v: int) { -HalfRange(t) <= v < HalfRange(t) }

  predicate IsInt64(v: int) { -TWO_63 <= v < TWO_63 }

  ghost predicate AllInRange(t: DataType, xs: seq<int>) {
    forall i :: 0 <= i < |xs| ==> InRange(t, xs[i])
  }

  /** static_cast to the unsigned type of the same width */
  function Unsigned(t: DataType, v: int): (u: nat)
    requires InRange(t, v)
    ensures u < Modulus(t)
  {
    if v >= 0 then v else v + Modulus(t)
  }

  /** The signed reading of an unsigned word */
  function Signed(t: DataType, u: nat): (v: int)
    requires u < Modulus(t)
    ensures InRange(t, v)
  {
    if u < HalfRange(t) then u else u - Modulus(t)
  }

  /** Two's-complement truncation to the type: static_cast from a wider integer,
      and the result of a wrapping addition or subtraction. */
  function Wrap(t: DataType, v: int): (w: int)
    ensures InRange(t, w)
    ensures InRange(t, v) ==> w == v
  {
    if t.Int32? then (v + TWO_31) % TWO_32 - TWO_31 else (v + TWO_63) % TWO_64 - TWO_63
  }

  datatype Option<T> = None | Some(value: T)

  function Flag(b: bool): nat { if b then 1 else 0 }

  datatype CmpOp = Eq | Ne | Lt | Le | Gt | Ge

  predicate Compare(op: CmpOp, a: int, b: int) {
    match op
    case Eq => a == b
    case Ne => a != b
    case Lt => a < b
    case Le => a <= b
    case Gt => a > b
    case Ge => a >= b
  }

  datatype PredicateType = Cmp(op: CmpOp) | IsNull | IsNotNull
}
