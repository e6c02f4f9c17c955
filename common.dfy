/** The optional-value wrapper that stands for Python's `None`. */
module Wrappers {

  datatype Option<+T> = None | Some(value: T)
}

/**
 * The numeric values the searches compute: integers together with the two
 * float sentinels `float('-inf')` and `float('inf')` that several of them
 * start from or return.
 */
module ExtendedInt {

  datatype ExtInt = NegInf | Fin(n: int) | PosInf

  /** Python's `<=` on these values. */
  predicate Le(a: ExtInt, b: ExtInt) {
    match (a, b)
    case (NegInf, _) => true
    case (_, PosInf) => true
    case (Fin(x), Fin(y)) => x <= y
    case _ => false
  }

  /** Python's `<` on these values. */
  predicate Lt(a: ExtInt, b: ExtInt) {
    !Le(b, a)
  }

  /** Python's two-argument `max`. */
  function Max(a: ExtInt, b: ExtInt): (r: ExtInt)
    ensures Le(a, r) && Le(b, r)
    ensures r == a || r == b
  {
    if Le(a, b) then b else a
  }

  /** Python's two-argument `min`. */
  function Min(a: ExtInt, b: ExtInt): (r: ExtInt)
    ensures Le(r, a) && Le(r, b)
    ensures r == a || r == b
  {
    if Le(a, b) then a else b
  }

  /** `Le` is a total order. */
  lemma LeTotalOrder(a: ExtInt, b: ExtInt, c: ExtInt)
    ensures Le(a, a)
    ensures Le(a, b) || Le(b, a)
    ensures Le(a, b) && Le(b, a) ==> a == b
    ensures Le(a, b) && Le(b, c) ==> Le(a, c)
  {
  }
}
