/**
 The static class `Extensions`: linear re-mapping of a number from one range to another,
 evaluated as C# evaluates it on `double`s, minus rounding. A division by zero does not
 throw on doubles: it yields an infinity or NaN, which the model keeps as values.
 */
module Extensions {

  /** A C# `double` without rounding: an exact real, one of the two infinities, or NaN. */
  datatype Double = Finite(value: real) | PositiveInfinity | NegativeInfinity | NaN

  /** `n / d` on doubles whose operands are the exact reals `n` and `d`. */
  function Divide(n: real, d: real): (r: Double)
    ensures d != 0.0 ==> r.Finite? && r.value * d == n
    ensures d == 0.0 ==> !r.Finite?
    ensures d == 0.0 ==> (r.NaN? <==> n == 0.0) && (r.PositiveInfinity? <==> n > 0.0)
  {
    if d != 0.0 then Finite(n / d)
    else if n > 0.0 then PositiveInfinity
    else if n < 0.0 then NegativeInfinity
    else NaN
  }

  /**
   `q * k` on doubles, `k` finite. An infinity times zero is NaN; an infinity times anything else
   is the infinity whose sign is the product of the two signs.
   */
  function Multiply(q: Double, k: real): (r: Double)
    ensures q.Finite? ==> r.Finite? && r.value == q.value * k
    ensures !q.Finite? ==> !r.Finite?
    ensures !q.Finite? ==> (r.NaN? <==> q.NaN? || k == 0.0)
    ensures r.PositiveInfinity? <==>
      (q.PositiveInfinity? && k > 0.0) || (q.NegativeInfinity? && k < 0.0)
  {
    match q
    case Finite(v) => Finite(v * k)
    case PositiveInfinity => if k > 0.0 then PositiveInfinity else if k < 0.0 then NegativeInfinity else NaN
    case NegativeInfinity => if k > 0.0 then NegativeInfinity else if k < 0.0 then PositiveInfinity else NaN
    case NaN => NaN
  }

  /** `q + k` on doubles, `k` finite: a finite sum, or the infinity or NaN unchanged. */
  function Add(q: Double, k: real): (r: Double)
    ensures q.Finite? ==> r.Finite? && r.value - k == q.value
    ensures !q.Finite? ==> r == q
  {
    match q
    case Finite(v) => Finite(v + k)
    case _ => q
  }

  /** C#'s `lhs > rhs` for an `int` compared with a `double`: false whenever `rhs` is NaN. */
  predicate GreaterThan(lhs: int, rhs: Double): (r: bool)
    ensures rhs.Finite? ==> (r <==> lhs as real > rhs.value)
    ensures rhs.NaN? || rhs.PositiveInfinity? ==> !r
    ensures rhs.NegativeInfinity? ==> r
  {
    match rhs
    case Finite(v) => lhs as real > v
    case PositiveInfinity => false
    case NegativeInfinity => true
    case NaN => false
  }

  /**
   `value` mapped linearly from [fromSource, toSource] onto [fromTarget, toTarget], evaluated as
   ((value - fromSource) / (toSource - fromSource)) * (toTarget - fromTarget) + fromTarget.
   With a non-empty source range the result is the finite point on the line through
   (fromSource, fromTarget) and (toSource, toTarget); with an empty one the division by zero
   gives an infinity signed by the numerators, or NaN when a zero meets a zero or an infinity.
   */
  function Map(value: real, fromSource: real, toSource: real, fromTarget: real, toTarget: real): (r: Double)
    ensures fromSource != toSource ==>
      r.Finite? && (r.value - fromTarget) * (toSource - fromSource) == (value - fromSource) * (toTarget - fromTarget)
    ensures fromSource == toSource ==> !r.Finite?
    ensures fromSource == toSource ==> (r.NaN? <==> value == fromSource || fromTarget == toTarget)
    ensures fromSource == toSource ==>
      (r.PositiveInfinity? <==> (value - fromSource) * (toTarget - fromTarget) > 0.0)
  {
    Add(Multiply(Divide(value - fromSource, toSource - fromSource), toTarget - fromTarget), fromTarget)
  }

  /** The two ends of the source range land on the two ends of the target range. */
  lemma MapEndpoints(fromSource: real, toSource: real, fromTarget: real, toTarget: real)
    requires fromSource != toSource
    ensures Map(fromSource, fromSource, toSource, fromTarget, toTarget) == Finite(fromTarget)
    ensures Map(toSource, fromSource, toSource, fromTarget, toTarget) == Finite(toTarget)
  {
  }

  /** For increasing ranges the mapping is strictly increasing. */
  lemma MapIncreasing(v1: real, v2: real, fromSource: real, toSource: real, fromTarget: real, toTarget: real)
    requires fromSource < toSource && fromTarget < toTarget && v1 < v2
    ensures Map(v1, fromSource, toSource, fromTarget, toTarget).Finite?
    ensures Map(v2, fromSource, toSource, fromTarget, toTarget).Finite?
    ensures Map(v1, fromSource, toSource, fromTarget, toTarget).value
          < Map(v2, fromSource, toSource, fromTarget, toTarget).value
  {
    var r1 := Map(v1, fromSource, toSource, fromTarget, toTarget).value;
    var r2 := Map(v2, fromSource, toSource, fromTarget, toTarget).value;
    var w := toSource - fromSource;
    assert (v1 - fromSource) * (toTarget - fromTarget) < (v2 - fromSource) * (toTarget - fromTarget);
    assert (r1 - fromTarget) * w < (r2 - fromTarget) * w;
  }
}
