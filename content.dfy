/**
 * ContentGeneralGraph: the set of graph fragments of one window, stamped with
 * the clock's application time of the last addition, and the merge of those
 * fragments into one graph.
 */
module Content {
  import opened Graphs
  import opened Clock

  /** An edge with one endpoint chosen is the pair of that endpoint and the other one. */
  lemma EdgeEnds<T>(e: Edge<T>, source: T)
    requires |e| == 2 && source in e
    ensures |e - {source}| == 1
    ensures forall target :: target in e - {source} ==> e == {source, target}
  {
    forall target | target in e - {source}
      ensures e == {source, target}
    {
      assert {source, target} <= e;
      assert |e - {source, target}| == 0;
    }
  }

  /** The inner loop over a fragment's vertices: each one is added to `into`. */
  method AddVertices<T>(into: Graph<T>, g: Graph<T>) returns (r: Graph<T>)
    requires WellFormed(into)
    ensures r.vertices == into.vertices + g.vertices
    ensures r.edges == into.edges
    ensures WellFormed(r)
  {
    r := into;
    var vs := g.vertices;
    while vs != {}
      invariant vs <= g.vertices
      invariant r.vertices == into.vertices + (g.vertices - vs)
      invariant r.edges == into.edges
      invariant WellFormed(r)
      decreases vs
    {
      var v :| v in vs;
      r := AddVertex(r, v);
      vs := vs - {v};
    }
  }

  /**
   * The inner loop over a fragment's edges: each is added between its source
   * and target, which are already vertices of `into`.
   */
  method AddEdges<T>(into: Graph<T>, g: Graph<T>) returns (r: Graph<T>)
    requires WellFormed(into) && WellFormed(g) && g.vertices <= into.vertices
    ensures r.vertices == into.vertices
    ensures r.edges == into.edges + g.edges
    ensures WellFormed(r)
  {
    r := into;
    var es := g.edges;
    while es != {}
      invariant es <= g.edges
      invariant r.vertices == into.vertices
      invariant r.edges == into.edges + (g.edges - es)
      invariant WellFormed(r)
      decreases es
    {
      var e :| e in es;
      var source :| source in e;
      EdgeEnds(e, source);
      var target :| target in e - {source};
      r := AddEdge(r, source, target);
      es := es - {e};
    }
  }

  class ContentGeneralGraph<T(==)> {
    const instance: Time
    var elements: set<Graph<T>>
    var lastTimestampChanged: int

    /** Every stored fragment is a graph value, whose edges join its own vertices. */
    ghost predicate Valid()
      reads this
    {
      forall g :: g in elements ==> WellFormed(g)
    }

    constructor (instance: Time)
      ensures Valid()
      ensures this.instance == instance
      ensures elements == {} && lastTimestampChanged == 0
    {
      this.instance := instance;
      elements := {};
      lastTimestampChanged := 0;
    }

    /** The number of distinct fragments held (set semantics). */
    function Size(): (n: nat)
      reads this
      ensures n == |elements|
      ensures n == 0 <==> elements == {}
    {
      |elements|
    }

    /** Adds a fragment (a set insertion) and restamps the content with the clock's time. */
    method Add(e: Graph<T>)
      requires Valid() && WellFormed(e)
      modifies this
      ensures Valid()
      ensures elements == old(elements) + {e}
      ensures e in old(elements) ==> Size() == old(Size())
      ensures e !in old(elements) ==> Size() == old(Size()) + 1
      ensures lastTimestampChanged == instance.appTime
    {
      if e in elements {
        assert elements + {e} == elements;
      }
      elements := elements + {e};
      lastTimestampChanged := instance.appTime;
    }

    /**
     * A single fragment is returned as it is; otherwise every fragment's
     * vertices and then its edges are inserted into a fresh graph. Either way
     * the result is the union of the fragments, and it is well formed.
     */
    method Coalesce() returns (r: Graph<T>)
      requires Valid()
      ensures |elements| == 1 ==> elements == {r}
      ensures r == Union(elements)
      ensures WellFormed(r)
    {
      if |elements| == 1 {
        var g :| g in elements;
        assert elements == {g} by {
          assert |elements - {g}| == 0;
        }
        UnionSingleton(g);
        return g;
      }
      var combined := EmptyGraph();
      var rest := elements;
      while rest != {}
        invariant rest <= elements
        invariant combined == Union(elements - rest)
        invariant WellFormed(combined)
        decreases rest
      {
        var g :| g in rest;
        combined := AddVertices(combined, g);
        combined := AddEdges(combined, g);
        UnionInsert(elements - rest, g);
        assert elements - (rest - {g}) == (elements - rest) + {g};
        rest := rest - {g};
      }
      UnionEmpty<T>();
      r := combined;
    }

    /**
     * equals: the same object, or another content with the same fragments
     * and the same last-changed stamp.
     */
    predicate Equals(that: ContentGeneralGraph?<T>)
      reads this, that
      ensures Equals(that) <==>
        that != null && elements == that.elements && lastTimestampChanged == that.lastTimestampChanged
    {
      this == that ||
      (that != null && lastTimestampChanged == that.lastTimestampChanged && elements == that.elements)
    }
  }
}
