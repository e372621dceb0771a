/** Shapes shared by every component: optional values and numbers as Python floats deliver them. */
module Common {

  datatype Option<+T> = None | Some(value: T)

  /** The confirmed state of a miner. */
  datatype Health = Ok | Low | Offline | Hashboard

  /** A measured quantity. `Missing` stands for None and for a value that float() rejects;
      the three non-finite floats are kept apart because comparisons treat them differently. */
  datatype Number = Missing | NaN | PosInf | NegInf | Finite(value: real)

  /** `n < limit` on floats; every comparison with NaN is false. */
  predicate Below(n: Number, limit: real) {
    n.NegInf? || (n.Finite? && n.value < limit)
  }

  /** `n >= limit` on floats. */
  predicate AtLeast(n: Number, limit: real) {
    n.PosInf? || (n.Finite? && n.value >= limit)
  }

  function FiniteOrNone(n: Number): Option<real> {
    if n.Finite? then Some(n.value) else None
  }

  lemma SubsetSize<T>(a: set<T>, b: set<T>)
    requires a <= b
    ensures |a| <= |b|
  {
    assert b == a + (b - a);
  }

  function MaxReal(a: real, b: real): real {
    if a >= b then a else b
  }

  function MaxInt(a: int, b: int): int {
    if a >= b then a else b
  }

  function MinInt(a: int, b: int): int {
    if a <= b then a else b
  }
}
