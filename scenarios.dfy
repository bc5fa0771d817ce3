/**
 * Two call sequences on the window operator over concrete inputs, showing
 * what the operator does as written where its test suite expects otherwise.
 */
module Scenarios {
  import opened Graphs
  import opened Distances
  import opened Clock
  import opened Diameter
  import opened ShortestPath
  import opened Policies
  import opened WindowOperator

  /**
   * An element stamped 100000 ms after an earlier one, then a copy stamped
   * back at the earlier time: because windowing never advances the clock's
   * application time (still 0), the late copy is accepted, not rejected.
   */
  method AppTimeNotAdvanced() returns (first: Outcome, late: Outcome, appTime: int)
    ensures first == Accepted && late == Accepted
    ensures appTime == 0
  {
    var time := new Time(0);
    var policy := new GraphDiameterAlgorithm<Graph<string>>(1.0, (g, s, t) => Fin(0.0));
    var op := new CustomGraphStreamOp(60000, DiameterPolicy(policy), time, (c: ReportCall<string>) => true);
    var fragment := Graph({"A", "B"}, {{"A", "B"}});
    first := op.Windowing(fragment, 1000000, 0);
    late := op.Windowing(fragment, 1000000 - 100000, 0);
    appTime := time.appTime;
  }

  /**
   * Window size 60000 and a shortest-path policy that stays open: start and
   * end are the first fragment, the oracle gives 0 from a fragment to itself
   * and +infinity between distinct fragments (the working graph has no
   * edges), and the threshold is 1.0. A fragment at 0 is evicted from the
   * buffer by a fragment at 100000, yet stays a vertex of the working graph,
   * since eviction touches only the buffer.
   */
  method EvictionKeepsWorkingGraph() returns (buffered: seq<TimestampedElement<string>>, working: set<Graph<string>>)
    ensures buffered == [TimestampedElement(Graph({"B"}, {}), 100000)]
    ensures Graph({"A"}, {}) in working && Graph({"B"}, {}) in working
  {
    var time := new Time(0);
    var a := Graph({"A"}, {});
    var b := Graph({"B"}, {});
    var policy := new ShortestPathAlgorithm<Graph<string>>(a, a, 1.0,
      (g: Graph<Graph<string>>, s: Graph<string>, t: Graph<string>) => if s == t then Fin(0.0) else Inf);
    var op := new CustomGraphStreamOp(60000, ShortestPathPolicy(policy), time, (c: ReportCall<string>) => true);
    var r1 := op.Windowing(a, 0, 0);
    var r2 := op.Windowing(b, 100000, 0);
    HorizonEviction(a, b, 0);
    buffered := op.buffer;
    working := op.graph.vertices;
  }
}
