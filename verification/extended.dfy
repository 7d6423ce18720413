/**
 The distance maps of the hiders store a whole number of steps, `inf` for a
 cell that cannot be reached, and `-inf` for a cell that is not a candidate
 at all. `Ext` keeps the two infinities as tags instead of sentinel numbers.
 */
module Extended {

  datatype Ext = Fin(n: nat) | Inf | NegInf

  /** The order Python's float comparison gives these values: -inf < 0 < 1 < ... < inf. */
  predicate Le(a: Ext, b: Ext)
  {
    a == NegInf || b == Inf || (a.Fin? && b.Fin? && a.n <= b.n)
  }

  /** Python's `min` of two such values. */
  function Min(a: Ext, b: Ext): (r: Ext)
    ensures Le(r, a) && Le(r, b)
    ensures r == a || r == b
  {
    if Le(a, b) then a else b
  }

  /** Python's `max` of two such values (the first one on a tie). */
  function Max(a: Ext, b: Ext): (r: Ext)
    ensures Le(a, r) && Le(b, r)
    ensures r == a || r == b
  {
    if Le(b, a) then a else b
  }

  lemma LeTotal(a: Ext, b: Ext)
    ensures Le(a, b) || Le(b, a)
  {
  }

  lemma LeTransitive(a: Ext, b: Ext, c: Ext)
    requires Le(a, b) && Le(b, c)
    ensures Le(a, c)
  {
  }
}
