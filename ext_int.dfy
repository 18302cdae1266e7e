/**
 * Utility values of the search: integers extended with the two sentinels the
 * search starts its bounds and its running extrema from (negative and
 * positive infinity).
 */
module ExtInt {

  datatype ExtInt = NegInf | Fin(n: int) | PosInf

  /** The order of the extended integers: NegInf below every value, PosInf above. */
  predicate Le(a: ExtInt, b: ExtInt) {
    a.NegInf? || b.PosInf? || (a.Fin? && b.Fin? && a.n <= b.n)
  }

  predicate Lt(a: ExtInt, b: ExtInt) {
    Le(a, b) && a != b
  }

  /** The larger of two values; on a tie the first, like Python's max. */
  function Max(a: ExtInt, b: ExtInt): (r: ExtInt)
    ensures Le(a, r) && Le(b, r)
    ensures r == a || r == b
  {
    if Lt(a, b) then b else a
  }

  /** The smaller of two values; on a tie the first, like Python's min. */
  function Min(a: ExtInt, b: ExtInt): (r: ExtInt)
    ensures Le(r, a) && Le(r, b)
    ensures r == a || r == b
  {
    if Lt(b, a) then b else a
  }

  /** Le is a total order, so a value that is not strictly below another is at least it. */
  lemma LeIsTotalOrder(a: ExtInt, b: ExtInt, c: ExtInt)
    ensures Le(a, a)
    ensures Le(a, b) && Le(b, a) ==> a == b
    ensures Le(a, b) && Le(b, c) ==> Le(a, c)
    ensures Le(a, b) || Le(b, a)
    ensures !Lt(a, b) <==> Le(b, a)
  {
  }
}
