/**
 * Path weights as returned by the graph library: a finite real or positive
 * infinity (no path). Only comparison and maximum are used on them, which
 * are exact on doubles, so reals model them faithfully (NaN aside).
 */
module Distances {

  datatype Dist = Fin(r: real) | Inf

  /**
   * Java's `a > b` on doubles, with Inf standing for POSITIVE_INFINITY:
   * a strict comparison, with +infinity above every finite weight and
   * nothing above +infinity.
   */
  predicate Greater(a: Dist, b: Dist): (r: bool)
    ensures a == b ==> !r
    ensures b == Inf ==> !r
    ensures a == Inf && b.Fin? ==> r
    ensures a.Fin? && b.Fin? ==> (r <==> a.r > b.r)
  {
    match (a, b)
    case (Inf, Fin(_)) => true
    case (Fin(x), Fin(y)) => x > y
    case (_, Inf) => false
  }

  /**
   * `d > threshold` for a finite double threshold: a missing path always
   * exceeds it, a finite weight exactly when it is strictly larger.
   */
  predicate Exceeds(d: Dist, threshold: real): (r: bool)
    ensures d == Inf ==> r
    ensures d.Fin? ==> (r <==> d.r > threshold)
  {
    Greater(d, Fin(threshold))
  }
}
