/**
 * The pluggable close policy (GraphProcessingAlgorithm): an update step run
 * on the working graph and a close decision. The two reference policies with
 * state of their own are the cases.
 */
module Policies {
  import opened Graphs
  import opened Distances
  import opened ShortestPath
  import opened Diameter

  datatype Policy<T(==)> =
    | ShortestPathPolicy(sp: ShortestPathAlgorithm<T>)
    | DiameterPolicy(gd: GraphDiameterAlgorithm<T>)
  {
    /** The object holding the policy's state. */
    function Obj(): object
    {
      match this
      case ShortestPathPolicy(sp) => sp
      case DiameterPolicy(gd) => gd
    }
  }

  /** The policy's state is what its update step makes of the previous state and `g`. */
  twostate predicate Processed<T>(p: Policy<T>, g: Graph<T>)
    reads p.Obj()
  {
    match p
    case ShortestPathPolicy(sp) =>
      sp.distanceMap == UpdateDistances(old(sp.distanceMap), sp.dist, g, sp.startVertex)
    case DiameterPolicy(gd) =>
      IsDiameter(gd.currentDiameter, gd.dist, g)
  }

  /** The close decision on the policy's current state. */
  predicate Closes<T(==)>(p: Policy<T>)
    reads p.Obj()
  {
    match p
    case ShortestPathPolicy(sp) => CloseOnDistance(sp.distanceMap, sp.endVertex, sp.threshold)
    case DiameterPolicy(gd) => Exceeds(gd.currentDiameter, gd.threshold)
  }

  /** process(graph), dispatched to the policy. */
  method Process<T(==)>(p: Policy<T>, g: Graph<T>)
    modifies p.Obj()
    ensures Processed(p, g)
  {
    match p
    case ShortestPathPolicy(sp) => sp.Process(g);
    case DiameterPolicy(gd) => gd.Process(g);
  }

  /** shouldCloseWindow(graph), dispatched to the policy; it changes nothing. */
  method ShouldCloseWindow<T(==)>(p: Policy<T>, g: Graph<T>) returns (r: bool)
    ensures r == Closes(p)
  {
    match p
    case ShortestPathPolicy(sp) => r := sp.ShouldCloseWindow(g);
    case DiameterPolicy(gd) => r := gd.ShouldCloseWindow(g);
  }
}
