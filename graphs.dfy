/**
 * Graph values as the window engine sees them: a vertex set and a set of
 * undirected edges, each edge being the set of its two endpoints (a simple
 * graph: no loops, no multi-edges).
 */
module Graphs {

  /** An undirected edge is the set of its two endpoints. */
  type Edge<V> = set<V>

  datatype Graph<V> = Graph(vertices: set<V>, edges: set<Edge<V>>)

  function EmptyGraph<V>(): Graph<V>
  {
    Graph({}, {})
  }

  /** Every edge joins two distinct vertices of the graph. */
  predicate WellFormed<V>(g: Graph<V>)
  {
    forall e :: e in g.edges ==> |e| == 2 && e <= g.vertices
  }

  /** addVertex: inserting a vertex that is already there changes nothing. */
  function AddVertex<V>(g: Graph<V>, v: V): (r: Graph<V>)
    ensures r.vertices == g.vertices + {v} && r.edges == g.edges
    ensures v in g.vertices ==> r == g
    ensures WellFormed(g) ==> WellFormed(r)
  {
    Graph(g.vertices + {v}, g.edges)
  }

  /**
   * addEdge on a simple graph: both endpoints must already be vertices and
   * distinct; an edge already present (in either direction) is not added twice.
   */
  function AddEdge<V>(g: Graph<V>, source: V, target: V): (r: Graph<V>)
    requires source in g.vertices && target in g.vertices && source != target
    ensures r.vertices == g.vertices
    ensures {source, target} in r.edges && g.edges <= r.edges
    ensures r.edges - g.edges <= {{source, target}}
    ensures {source, target} in g.edges ==> r == g
    ensures WellFormed(g) ==> WellFormed(r)
  {
    Graph(g.vertices, g.edges + {{source, target}})
  }

  /** The reference merge: every vertex and every edge of every fragment. */
  function Union<V>(gs: set<Graph<V>>): Graph<V>
  {
    Graph(set g, v | g in gs && v in g.vertices :: v,
          set g, e | g in gs && e in g.edges :: e)
  }

  /** A vertex or edge is in the union exactly when some fragment has it. */
  lemma UnionMembers<V>(gs: set<Graph<V>>)
    ensures forall v :: v in Union(gs).vertices <==> exists g :: g in gs && v in g.vertices
    ensures forall e :: e in Union(gs).edges <==> exists g :: g in gs && e in g.edges
  {
  }

  /** Adding one more fragment to a union adds exactly its vertices and edges. */
  lemma UnionInsert<V>(gs: set<Graph<V>>, g: Graph<V>)
    ensures Union(gs + {g}).vertices == Union(gs).vertices + g.vertices
    ensures Union(gs + {g}).edges == Union(gs).edges + g.edges
  {
  }

  /** The union of a single fragment is that fragment. */
  lemma UnionSingleton<V>(g: Graph<V>)
    ensures Union({g}) == g
  {
    assert Union({g}).vertices == g.vertices;
    assert Union({g}).edges == g.edges;
  }

  lemma UnionEmpty<V>()
    ensures Union<V>({}) == EmptyGraph()
  {
  }

  /** Endpoint closure: merging well-formed fragments gives a well-formed graph. */
  lemma UnionWellFormed<V>(gs: set<Graph<V>>)
    requires forall g :: g in gs ==> WellFormed(g)
    ensures WellFormed(Union(gs))
  {
    forall e | e in Union(gs).edges
      ensures |e| == 2 && e <= Union(gs).vertices
    {
      var g :| g in gs && e in g.edges;
      assert e <= g.vertices;
    }
  }

  /** The union does not depend on the order in which fragments are joined. */
  lemma UnionOfParts<V>(a: set<Graph<V>>, b: set<Graph<V>>)
    ensures Union(a + b).vertices == Union(a).vertices + Union(b).vertices
    ensures Union(a + b).edges == Union(a).edges + Union(b).edges
  {
  }
}
