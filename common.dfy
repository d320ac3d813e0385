/** The Option/Result wrappers, the error values the colour pipeline can raise,
    and the extended reals that its scores live in. */
module Common {

  datatype Option<+T> = None | Some(value: T)

  /** The two ways the modelled Python code can raise: a `ValueError` from
      `int(..., 16)`, naming the literal it rejects, and `min()` applied to
      an empty sequence. */
  datatype Error = FormatError(value: string) | EmptySequence

  datatype Result<+T> = Ok(value: T) | Err(error: Error)

  function Abs(x: real): (r: real)
    ensures r >= 0.0 && (r == x || r == -x)
  {
    if x < 0.0 then -x else x
  }

  function Min(x: real, y: real): (r: real)
    ensures r <= x && r <= y && (r == x || r == y)
  {
    if x <= y then x else y
  }

  /** Python floats as far as the scores use them: `float("-inf")`,
      finite values and `float("inf")`. */
  datatype ExtReal = NegInf | Fin(v: real) | PosInf {

    /** The strict order of the extended reals (Python's `<` on floats). */
    predicate Below(other: ExtReal) {
      match this
      case NegInf => !other.NegInf?
      case Fin(x) => other.PosInf? || (other.Fin? && x < other.v)
      case PosInf => false
    }

    /** Python's `x >= 0` on a score. */
    predicate NonNegative() {
      !Below(Fin(0.0))
    }
  }

  lemma {:induction false} BelowIsStrictOrder(a: ExtReal, b: ExtReal, c: ExtReal)
    ensures !a.Below(a)
    ensures a.Below(b) ==> !b.Below(a)
    ensures a.Below(b) && b.Below(c) ==> a.Below(c)
    ensures a.Below(b) || b.Below(a) || a == b
  {
    match a
    case NegInf =>
    case PosInf =>
    case Fin(x) =>
      match b
      case NegInf =>
      case PosInf =>
      case Fin(y) =>
  }
}
