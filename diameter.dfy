/**
 * GraphDiameterAlgorithm: a close policy that recomputes, on every update,
 * the largest all-pairs path weight of the graph (starting from 0) and closes
 * the window once it exceeds a threshold. The all-pairs routine belongs to
 * the graph library and is the oracle `dist`.
 */
module Diameter {
  import opened Graphs
  import opened Distances

  /**
   * `d` is the running maximum of the nested loop over all vertex pairs,
   * started at 0: at least 0, at least every pair's weight, and either 0 or
   * the weight of some pair.
   */
  ghost predicate IsDiameter<T>(d: Dist, dist: (Graph<T>, T, T) -> Dist, g: Graph<T>)
  {
    && !Greater(Fin(0.0), d)
    && (forall s, t :: s in g.vertices && t in g.vertices ==> !Greater(dist(g, s, t), d))
    && (d == Fin(0.0) || exists s, t :: s in g.vertices && t in g.vertices && d == dist(g, s, t))
  }

  /**
   * The value is determined by the graph alone: whatever the policy held
   * before processing plays no part.
   */
  lemma DiameterUnique<T>(a: Dist, b: Dist, dist: (Graph<T>, T, T) -> Dist, g: Graph<T>)
    requires IsDiameter(a, dist, g) && IsDiameter(b, dist, g)
    ensures a == b
  {
  }

  /** A graph with no vertices has diameter 0. */
  lemma DiameterOfEmptyGraph<T>(d: Dist, dist: (Graph<T>, T, T) -> Dist, g: Graph<T>)
    requires g.vertices == {} && IsDiameter(d, dist, g)
    ensures d == Fin(0.0)
  {
  }

  /** One unreachable pair makes the diameter infinite, which exceeds every finite threshold. */
  lemma DiameterUnreachable<T>(d: Dist, dist: (Graph<T>, T, T) -> Dist, g: Graph<T>, s: T, t: T, threshold: real)
    requires s in g.vertices && t in g.vertices && dist(g, s, t) == Inf
    requires IsDiameter(d, dist, g)
    ensures d == Inf && Exceeds(d, threshold)
  {
    assert !Greater(dist(g, s, t), d);
  }

  class GraphDiameterAlgorithm<T(==)> {
    const threshold: real
    /** The library's all-pairs path weight between two vertices of a graph (Inf: no path). */
    const dist: (Graph<T>, T, T) -> Dist
    var currentDiameter: Dist

    /** A fresh policy holds 0, so it closes exactly when 0 exceeds the threshold. */
    constructor (threshold: real, dist: (Graph<T>, T, T) -> Dist)
      ensures this.threshold == threshold && this.dist == dist
      ensures currentDiameter == Fin(0.0)
      ensures Exceeds(currentDiameter, threshold) <==> 0.0 > threshold
    {
      this.threshold := threshold;
      this.dist := dist;
      currentDiameter := Fin(0.0);
    }

    /** process / updateDiameter: reset to 0, then the running maximum over all pairs. */
    method Process(g: Graph<T>)
      modifies this
      ensures IsDiameter(currentDiameter, dist, g)
    {
      currentDiameter := Fin(0.0);
      var sources := g.vertices;
      while sources != {}
        invariant sources <= g.vertices
        invariant !Greater(Fin(0.0), currentDiameter)
        invariant forall s, t :: s in g.vertices - sources && t in g.vertices ==> !Greater(dist(g, s, t), currentDiameter)
        invariant currentDiameter == Fin(0.0) || exists s, t :: s in g.vertices && t in g.vertices && currentDiameter == dist(g, s, t)
        decreases sources
      {
        var source :| source in sources;
        var targets := g.vertices;
        while targets != {}
          invariant targets <= g.vertices
          invariant !Greater(Fin(0.0), currentDiameter)
          invariant forall s, t :: s in g.vertices - sources && t in g.vertices ==> !Greater(dist(g, s, t), currentDiameter)
          invariant forall t :: t in g.vertices - targets ==> !Greater(dist(g, source, t), currentDiameter)
          invariant currentDiameter == Fin(0.0) || exists s, t :: s in g.vertices && t in g.vertices && currentDiameter == dist(g, s, t)
          decreases targets
        {
          var target :| target in targets;
          var distance := dist(g, source, target);
          if Greater(distance, currentDiameter) {
            currentDiameter := distance;
          }
          targets := targets - {target};
        }
        sources := sources - {source};
      }
    }

    /** shouldCloseWindow: strictly greater than the threshold; changes nothing. */
    method ShouldCloseWindow(g: Graph<T>) returns (r: bool)
      ensures r <==> Exceeds(currentDiameter, threshold)
    {
      r := Greater(currentDiameter, Fin(threshold));
    }
  }
}
