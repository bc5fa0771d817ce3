/**
 * ShortestPathAlgorithm: a close policy that caches, per vertex, the length
 * of the shortest path from a fixed start vertex, and closes the window once
 * the cached distance to a fixed end vertex exceeds a threshold. The
 * shortest-path routine itself belongs to the graph library and is the
 * oracle `dist`.
 */
module ShortestPath {
  import opened Graphs
  import opened Distances

  /** The cache after storing the distance from `start` to every vertex of `g`. */
  function UpdateDistances<T>(m: map<T, Dist>, dist: (Graph<T>, T, T) -> Dist, g: Graph<T>, start: T): (r: map<T, Dist>)
    ensures r.Keys == m.Keys + g.vertices
    ensures forall v :: v in g.vertices ==> r[v] == dist(g, start, v)
    ensures forall v :: v in m && v !in g.vertices ==> r[v] == m[v]
  {
    m + map v | v in g.vertices :: dist(g, start, v)
  }

  /**
   * getOrDefault(end, +infinity) > threshold: an absent end vertex closes the
   * window, a present one closes it exactly when its distance exceeds the
   * threshold.
   */
  function CloseOnDistance<T>(m: map<T, Dist>, end: T, threshold: real): (r: bool)
    ensures end !in m ==> r
    ensures end in m ==> (r <==> Exceeds(m[end], threshold))
  {
    Exceeds(if end in m then m[end] else Inf, threshold)
  }

  /** Processing a graph with no vertices leaves the cache as it was. */
  lemma UpdateEmptyGraph<T>(m: map<T, Dist>, dist: (Graph<T>, T, T) -> Dist, g: Graph<T>, start: T)
    requires g.vertices == {}
    ensures UpdateDistances(m, dist, g, start) == m
  {
  }

  /** Processing the same graph twice gives the same cache as processing it once. */
  lemma UpdateIdempotent<T>(m: map<T, Dist>, dist: (Graph<T>, T, T) -> Dist, g: Graph<T>, start: T)
    ensures UpdateDistances(UpdateDistances(m, dist, g, start), dist, g, start) == UpdateDistances(m, dist, g, start)
  {
  }

  /**
   * Unit-weight path A-B-C with start "A", end "C" and threshold 1.5: the
   * cached distance to "C" is 2, so the window closes.
   */
  lemma PathExampleCloses(dist: (Graph<string>, string, string) -> Dist)
    requires dist(Graph({"A", "B", "C"}, {{"A", "B"}, {"B", "C"}}), "A", "C") == Fin(2.0)
    ensures CloseOnDistance(UpdateDistances(map[], dist, Graph({"A", "B", "C"}, {{"A", "B"}, {"B", "C"}}), "A"), "C", 1.5)
  {
    var g := Graph({"A", "B", "C"}, {{"A", "B"}, {"B", "C"}});
    assert "C" in g.vertices;
  }

  class ShortestPathAlgorithm<T(==)> {
    const startVertex: T
    const endVertex: T
    const threshold: real
    /** The library's shortest-path weight between two vertices of a graph (Inf: no path). */
    const dist: (Graph<T>, T, T) -> Dist
    var distanceMap: map<T, Dist>

    /** A fresh policy has an empty cache, so it would close at once. */
    constructor (startVertex: T, endVertex: T, threshold: real, dist: (Graph<T>, T, T) -> Dist)
      ensures this.startVertex == startVertex && this.endVertex == endVertex
      ensures this.threshold == threshold && this.dist == dist
      ensures distanceMap == map[]
      ensures CloseOnDistance(distanceMap, endVertex, threshold)
    {
      this.startVertex := startVertex;
      this.endVertex := endVertex;
      this.threshold := threshold;
      this.dist := dist;
      distanceMap := map[];
    }

    /** process / updateDistanceMap: a put per vertex of `g`, in any order. */
    method Process(g: Graph<T>)
      modifies this
      ensures distanceMap == UpdateDistances(old(distanceMap), dist, g, startVertex)
    {
      var rest := g.vertices;
      while rest != {}
        invariant rest <= g.vertices
        invariant distanceMap == old(distanceMap) + map v | v in g.vertices - rest :: dist(g, startVertex, v)
        decreases rest
      {
        var v :| v in rest;
        distanceMap := distanceMap[v := dist(g, startVertex, v)];
        rest := rest - {v};
      }
    }

    /** shouldCloseWindow reads the cache only; it changes nothing. */
    method ShouldCloseWindow(g: Graph<T>) returns (r: bool)
      ensures r == CloseOnDistance(distanceMap, endVertex, threshold)
    {
      var shortestPathLength := if endVertex in distanceMap then distanceMap[endVertex] else Inf;
      r := Greater(shortestPathLength, Fin(threshold));
    }
  }
}
