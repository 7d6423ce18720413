/**
 The arithmetic the second hider scores with. Python floats are modelled
 as exact reals plus the three special values IEEE 754 adds: the two
 infinities and NaN. Rounding is not modelled. Each operation follows the
 IEEE 754 rules for the special values.
 */
module Scoring {
  import opened Extended

  datatype Float = Num(v: real) | PInf | NInf | NaN

  /** A distance value read as a float: `inf` and `-inf` become the infinities. */
  function FromExt(e: Ext): (f: Float)
    ensures f != NaN
    ensures e.Fin? <==> f.Num?
  {
    match e
    case Fin(n) => Num(n as real)
    case Inf => PInf
    case NegInf => NInf
  }

  function Neg(a: Float): Float
  {
    match a
    case Num(x) => Num(-x)
    case PInf => NInf
    case NInf => PInf
    case NaN => NaN
  }

  /** IEEE addition: NaN in, NaN out; opposite infinities give NaN; an infinity absorbs any number. */
  function Add(a: Float, b: Float): Float
  {
    if a == NaN || b == NaN then NaN
    else if a.Num? && b.Num? then Num(a.v + b.v)
    else if a.Num? then b
    else if b.Num? || a == b then a
    else NaN
  }

  function Sub(a: Float, b: Float): Float
  {
    if a == NaN || b == NaN then NaN
    else if a.Num? && b.Num? then Num(a.v - b.v)
    else if a.Num? then Neg(b)
    else if b.Num? || a != b then a
    else NaN
  }

  /** The sign of a non-NaN value: -1, 0 or 1. */
  function Sign(a: Float): int
  {
    match a
    case Num(x) => if x < 0.0 then -1 else if x == 0.0 then 0 else 1
    case PInf => 1
    case NInf => -1
    case NaN => 0
  }

  /** IEEE multiplication: NaN in, NaN out; an infinity times zero is NaN; otherwise an infinity keeps the product's sign. */
  function Mul(a: Float, b: Float): Float
  {
    if a == NaN || b == NaN then NaN
    else if a.Num? && b.Num? then Num(a.v * b.v)
    else if Sign(a) == 0 || Sign(b) == 0 then NaN
    else if (Sign(a) > 0) == (Sign(b) > 0) then PInf
    else NInf
  }

  /** Multiplication by a positive number k: the same as `Mul(a, Num(k))`, as ScaleIsMul shows. */
  function Scale(a: Float, k: real): (r: Float)
    requires 0.0 < k
    ensures a.Num? <==> r.Num?
    ensures r.Num? ==> r.v == a.v * k
  {
    match a
    case Num(x) => Num(x * k)
    case _ => a
  }

  lemma ScaleIsMul(a: Float, k: real)
    requires 0.0 < k
    ensures Scale(a, k) == Mul(a, Num(k))
  {
  }

  /**
   IEEE division by a non-zero divisor (Python raises on a zero divisor,
   which the one caller rules out): infinity over infinity is NaN, a
   number over an infinity is zero, an infinity over a number keeps the
   quotient's sign.
   */
  function Div(a: Float, b: Float): Float
    requires b != Num(0.0)
  {
    if a == NaN || b == NaN then NaN
    else if a.Num? && b.Num? then Num(a.v / b.v)
    else if a.Num? then Num(0.0)
    else if b.Num? then (if (a == PInf) == (b.v > 0.0) then PInf else NInf)
    else NaN
  }

  /** IEEE `a < b`: false whenever NaN is involved. */
  predicate LessThan(a: Float, b: Float)
  {
    if a == NaN || b == NaN then false
    else if a.Num? && b.Num? then a.v < b.v
    else if a == b then false
    else a == NInf || b == PInf
  }

  lemma LessTransitive(a: Float, b: Float, c: Float)
    requires LessThan(a, b) && LessThan(b, c)
    ensures LessThan(a, c)
  {
  }

  /** Two values neither of which is NaN are equal or ordered one way. */
  lemma LessTotal(a: Float, b: Float)
    requires a != NaN && b != NaN
    ensures a == b || LessThan(a, b) || LessThan(b, a)
  {
  }

  lemma LessIrreflexive(a: Float)
    ensures !LessThan(a, a)
  {
  }

  /** Finite and lo <= v <= hi. */
  predicate InRange(v: Float, lo: Float, hi: Float)
  {
    v.Num? && lo.Num? && hi.Num? && lo.v <= v.v <= hi.v
  }

  /** A point of [lo, hi] over a positive width lies in [0, 1]. */
  lemma UnitRatio(v: real, lo: real, hi: real)
    requires lo <= v <= hi && lo < hi
    ensures 0.0 <= (v - lo) / (hi - lo) <= 1.0
  {
    var w := hi - lo;
    var t := (v - lo) / w;
    assert t * w == v - lo;
    if t > 1.0 {
      assert t * w > w;
    }
  }

  /** `score_with_range`: 0 when the range has width exactly 0, otherwise the position of v within the range. */
  function ScoreWithRange(v: Float, lo: Float, hi: Float): Float
  {
    var width := Sub(hi, lo);
    if width == Num(0.0) then Num(0.0) else Div(Sub(v, lo), width)
  }

  /** A finite v inside a finite range scores between 0 and 1, and exactly 0 when the range has width 0. */
  lemma ScoreInUnit(v: real, lo: real, hi: real)
    requires lo <= v <= hi
    ensures ScoreWithRange(Num(v), Num(lo), Num(hi)).Num?
    ensures 0.0 <= ScoreWithRange(Num(v), Num(lo), Num(hi)).v <= 1.0
    ensures lo == hi ==> ScoreWithRange(Num(v), Num(lo), Num(hi)) == Num(0.0)
  {
    if lo < hi {
      UnitRatio(v, lo, hi);
    }
  }

  /** `invert_in_range`: the reflection of v in the range, hi - (v - lo). */
  function InvertInRange(v: Float, lo: Float, hi: Float): Float
  {
    Sub(hi, Sub(v, lo))
  }

  /** Reflection maps a finite range onto itself. */
  lemma InvertInRangeStays(v: real, lo: real, hi: real)
    requires lo <= v <= hi
    ensures InvertInRange(Num(v), Num(lo), Num(hi)) == Num(hi - (v - lo))
    ensures InRange(InvertInRange(Num(v), Num(lo), Num(hi)), Num(lo), Num(hi))
  {
  }

  /** Reflecting twice in a finite range gives back the finite value. */
  lemma InvertInvolution(v: real, lo: real, hi: real)
    ensures InvertInRange(InvertInRange(Num(v), Num(lo), Num(hi)), Num(lo), Num(hi)) == Num(v)
  {
  }

  /** With an infinite upper end, an infinite or NaN value scores NaN: infinity over infinity. */
  lemma InfiniteRangeScoreNaN(v: Float)
    requires v == PInf || v == NInf || v == NaN
    ensures ScoreWithRange(v, Num(0.0), PInf) == NaN
  {
    assert Sub(PInf, Num(0.0)) == PInf;
    assert Sub(v, Num(0.0)) == v;
  }

  /** With an infinite upper end, a number scores 0: a number over infinity. */
  lemma InfiniteRangeScoreZero(v: Float)
    requires v.Num?
    ensures ScoreWithRange(v, Num(0.0), PInf) == Num(0.0)
  {
    assert Sub(PInf, Num(0.0)) == PInf;
    assert Sub(v, Num(0.0)).Num?;
  }

  /** With an infinite upper end, reflecting a number gives infinity and reflecting infinity gives NaN. */
  lemma InfiniteRangeInvert(v: Float)
    ensures v.Num? ==> InvertInRange(v, Num(0.0), PInf) == PInf
    ensures v == PInf || v == NaN ==> InvertInRange(v, Num(0.0), PInf) == NaN
  {
  }
}
