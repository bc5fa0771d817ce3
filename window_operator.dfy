/**
 * CustomGraphStreamOp: the sliding-window operator. It keeps a buffer of
 * timestamped fragments and a working graph whose vertices are the
 * fragments themselves, runs the close policy after every admitted
 * fragment, reports and resets on close, and evicts entries older than the
 * window span.
 */
module WindowOperator {
  import opened Graphs
  import opened Clock
  import opened Content
  import opened Policies

  /** One buffered stream element: a fragment and its timestamp. */
  datatype TimestampedElement<V> = TimestampedElement(element: Graph<V>, timestamp: int)

  /** A window instance covering the timestamps in [open, close). */
  datatype Window = Window(open: int, close: int)

  /** What the operator hands to the report collaborator at a close. */
  datatype ReportCall<V> = ReportCall(
    window: Window,
    contentElements: set<Graph<Graph<V>>>,
    contentChanged: int,
    closeTime: int,
    wallClock: int)

  /** What the operator hands to the ticker after an acknowledged report. */
  datatype TickCall = TickCall(closeTime: int, window: Window)

  datatype Outcome = Accepted | OutOfOrder

  /** removeIf(timestamp < horizon): the entries stamped at or after the horizon, in order. */
  function Retained<V>(buffer: seq<TimestampedElement<V>>, horizon: int): (r: seq<TimestampedElement<V>>)
    ensures |r| <= |buffer|
    ensures forall i :: 0 <= i < |r| ==> r[i].timestamp >= horizon && r[i] in buffer
    ensures forall i :: 0 <= i < |buffer| && buffer[i].timestamp >= horizon ==> buffer[i] in r
  {
    if buffer == [] then []
    else (if buffer[0].timestamp >= horizon then [buffer[0]] else []) + Retained(buffer[1..], horizon)
  }

  /** Filtering a buffer with one more entry at the end filters the old part and then the entry. */
  lemma {:induction false} RetainedAppend<V>(buffer: seq<TimestampedElement<V>>, x: TimestampedElement<V>, horizon: int)
    ensures Retained(buffer + [x], horizon) ==
            Retained(buffer, horizon) + (if x.timestamp >= horizon then [x] else [])
  {
    if buffer == [] {
      assert buffer + [x] == [x];
      assert [x][1..] == [];
    } else {
      assert (buffer + [x])[0] == buffer[0];
      assert (buffer + [x])[1..] == buffer[1..] + [x];
      RetainedAppend(buffer[1..], x, horizon);
    }
  }

  /** Filtering twice at the same horizon filters once. */
  lemma {:induction false} RetainedIdempotent<V>(buffer: seq<TimestampedElement<V>>, horizon: int)
    ensures Retained(Retained(buffer, horizon), horizon) == Retained(buffer, horizon)
  {
    if buffer != [] {
      var rest := Retained(buffer[1..], horizon);
      RetainedIdempotent(buffer[1..], horizon);
      if buffer[0].timestamp >= horizon {
        var r := [buffer[0]] + rest;
        assert Retained(buffer, horizon) == r;
        assert r[0] == buffer[0] && r[1..] == rest;
        assert Retained(r, horizon) == [buffer[0]] + Retained(rest, horizon);
      } else {
        assert Retained(buffer, horizon) == rest;
      }
    }
  }

  /** The fragments of the buffer entries stamped at or after the horizon. */
  function WindowedElements<V>(buffer: seq<TimestampedElement<V>>, horizon: int): set<Graph<V>>
  {
    set i | 0 <= i < |buffer| && buffer[i].timestamp >= horizon :: buffer[i].element
  }

  /** What content(t) sees is exactly what eviction at horizon t would keep. */
  lemma WindowedElementsRetained<V>(buffer: seq<TimestampedElement<V>>, horizon: int)
    ensures WindowedElements(buffer, horizon) == set x | x in Retained(buffer, horizon) :: x.element
  {
    var r := Retained(buffer, horizon);
    forall f | f in WindowedElements(buffer, horizon)
      ensures f in set x | x in r :: x.element
    {
      var i :| 0 <= i < |buffer| && buffer[i].timestamp >= horizon && buffer[i].element == f;
      assert buffer[i] in r;
    }
    forall f | f in set x | x in r :: x.element
      ensures f in WindowedElements(buffer, horizon)
    {
      var x :| x in r && x.element == f;
      var i :| 0 <= i < |buffer| && buffer[i] == x;
    }
  }

  /**
   * The forEach of content/getContents: a fresh graph gets, as a vertex, the
   * fragment of every entry stamped at or after the horizon, and no edges.
   */
  method CollectWindow<V>(buffer: seq<TimestampedElement<V>>, horizon: int) returns (g: Graph<Graph<V>>)
    ensures g.edges == {}
    ensures forall f :: f in g.vertices <==>
      exists i :: 0 <= i < |buffer| && buffer[i].timestamp >= horizon && buffer[i].element == f
    ensures g == Graph(WindowedElements(buffer, horizon), {})
  {
    g := EmptyGraph();
    for k := 0 to |buffer|
      invariant g == Graph(WindowedElements(buffer[..k], horizon), {})
    {
      if buffer[k].timestamp >= horizon {
        g := AddVertex(g, buffer[k].element);
      }
      assert buffer[..k + 1][..k] == buffer[..k];
    }
    assert buffer[..|buffer|] == buffer;
  }

  class CustomGraphStreamOp<V(==)> {
    const windowSize: int
    const algorithm: Policy<Graph<V>>
    const time: Time
    /** The report collaborator: its answer to a report, true when delivered. */
    const report: ReportCall<V> -> bool
    var graph: Graph<Graph<V>>
    var buffer: seq<TimestampedElement<V>>
    /** The reports handed out so far, oldest first. */
    ghost var reports: seq<ReportCall<V>>
    /** The ticks issued so far, oldest first. */
    ghost var ticks: seq<TickCall>

    /**
     * The working graph has no edges, and every buffered fragment is one of its
     * vertices (the converse fails: eviction leaves the working graph alone).
     */
    ghost predicate Valid()
      reads this
    {
      && graph.edges == {}
      && forall x :: x in buffer ==> x.element in graph.vertices
    }

    constructor (windowSize: int, algorithm: Policy<Graph<V>>, time: Time, report: ReportCall<V> -> bool)
      ensures Valid()
      ensures this.windowSize == windowSize && this.algorithm == algorithm
      ensures this.time == time && this.report == report
      ensures graph == EmptyGraph() && buffer == []
      ensures reports == [] && ticks == []
    {
      this.windowSize := windowSize;
      this.algorithm := algorithm;
      this.time := time;
      this.report := report;
      graph := EmptyGraph();
      buffer := [];
      reports := [];
      ticks := [];
    }

    /** scope(t_e): the window that closes at t_e and spans windowSize before it. */
    function Scope(closeTime: int): (w: Window)
      ensures w.close == closeTime
      ensures w.close - w.open == windowSize
    {
      Window(closeTime - windowSize, closeTime)
    }

    /**
     * windowing(e, ts). A timestamp before the clock's application time is
     * rejected and nothing changes. Otherwise the entry is buffered, the
     * fragment becomes a vertex of the working graph, the policy processes
     * that graph and is asked whether to close; on close a content holding the
     * working graph is reported, a tick follows only when the report was
     * delivered, and buffer and graph are reset in any case. Entries older than
     * ts - windowSize are then dropped from the buffer. The application time is
     * never advanced.
     */
    method Windowing(e: Graph<V>, ts: int, wallClock: int) returns (res: Outcome)
      requires Valid()
      modifies this, algorithm.Obj()
      ensures Valid()
      ensures time.appTime == old(time.appTime)
      ensures res == OutOfOrder <==> old(time.appTime) > ts
      ensures res == OutOfOrder ==>
        && buffer == old(buffer) && graph == old(graph)
        && reports == old(reports) && ticks == old(ticks)
        && unchanged(algorithm.Obj())
      ensures res == Accepted ==> Processed(algorithm, AddVertex(old(graph), e))
      ensures res == Accepted ==> forall x :: x in buffer ==> x.timestamp >= ts - windowSize
      ensures res == Accepted && Closes(algorithm) ==>
        var call := ReportCall(Scope(ts), {AddVertex(old(graph), e)}, old(time.appTime), ts, wallClock);
        && buffer == [] && graph == EmptyGraph()
        && reports == old(reports) + [call]
        && ticks == old(ticks) + (if report(call) then [TickCall(ts, Scope(ts))] else [])
      ensures res == Accepted && !Closes(algorithm) ==>
        && graph == AddVertex(old(graph), e)
        && buffer == Retained(old(buffer) + [TimestampedElement(e, ts)], ts - windowSize)
        && reports == old(reports) && ticks == old(ticks)
    {
      var closeTime := ts;
      if time.appTime > closeTime {
        return OutOfOrder;
      }
      buffer := buffer + [TimestampedElement(e, ts)];
      graph := AddVertex(graph, e);
      Process(algorithm, graph);
      var close := ShouldCloseWindow(algorithm, graph);
      if close {
        CloseWindow(closeTime, wallClock);
      }
      CleanUpWindows(closeTime);
      return Accepted;
    }

    /**
     * The close branch of windowing: report a content holding the working
     * graph for the window scope(t_e), tick only if the report was delivered,
     * then clear buffer and graph whatever the report answered.
     */
    method CloseWindow(closeTime: int, wallClock: int)
      requires Valid()
      modifies this`buffer, this`graph, this`reports, this`ticks
      ensures Valid()
      ensures buffer == [] && graph == EmptyGraph()
      ensures var call := ReportCall(Scope(closeTime), {old(graph)}, time.appTime, closeTime, wallClock);
        && reports == old(reports) + [call]
        && ticks == old(ticks) + (if report(call) then [TickCall(closeTime, Scope(closeTime))] else [])
    {
      var active := Scope(closeTime);
      var content := new ContentGeneralGraph(time);
      content.Add(graph);
      var call := ReportCall(active, content.elements, content.lastTimestampChanged, closeTime, wallClock);
      reports := reports + [call];
      if report(call) {
        ticks := ticks + [TickCall(closeTime, active)];
      }
      buffer := [];
      graph := EmptyGraph();
    }

    /** cleanUpWindows(t_e): evicts from the buffer only; the working graph is untouched. */
    method CleanUpWindows(closeTime: int)
      requires Valid()
      modifies this`buffer
      ensures Valid()
      ensures buffer == Retained(old(buffer), closeTime - windowSize)
    {
      buffer := Retained(buffer, closeTime - windowSize);
    }

    /**
     * content(t_e): a fresh content holding one graph whose vertices are the
     * fragments buffered at or after t_e - windowSize, with no edges.
     */
    method Content(closeTime: int) returns (res: ContentGeneralGraph<Graph<V>>)
      ensures fresh(res) && res.Valid() && res.instance == time
      ensures res.elements == {Graph(WindowedElements(buffer, closeTime - windowSize), {})}
      ensures res.lastTimestampChanged == time.appTime
    {
      var combined := CollectWindow(buffer, closeTime - windowSize);
      res := new ContentGeneralGraph(time);
      res.Add(combined);
    }

    /** getContents(t_e): the same content as content(t_e), as a one-element list. */
    method GetContents(closeTime: int) returns (res: seq<ContentGeneralGraph<Graph<V>>>)
      ensures |res| == 1 && fresh(res[0]) && res[0].Valid() && res[0].instance == time
      ensures res[0].elements == {Graph(WindowedElements(buffer, closeTime - windowSize), {})}
      ensures res[0].lastTimestampChanged == time.appTime
    {
      var windowGraph := CollectWindow(buffer, closeTime - windowSize);
      var c := new ContentGeneralGraph(time);
      c.Add(windowGraph);
      res := [c];
    }

    /** evict(): does nothing. */
    method Evict()
      ensures unchanged(this)
    {
    }

    /** evict(ts): does nothing. */
    method EvictAt(ts: int)
      ensures unchanged(this)
    {
    }
  }

  /**
   * With a non-negative window size the entry just admitted survives the
   * eviction that follows it, as the last entry of the buffer.
   */
  lemma NewEntrySurvives<V>(buffer: seq<TimestampedElement<V>>, e: Graph<V>, ts: int, windowSize: int)
    requires windowSize >= 0
    ensures var r := Retained(buffer + [TimestampedElement(e, ts)], ts - windowSize);
      |r| > 0 && r[|r| - 1] == TimestampedElement(e, ts)
  {
    RetainedAppend(buffer, TimestampedElement(e, ts), ts - windowSize);
  }

  /**
   * With a window size of 60000, an entry at T is evicted by the admission of
   * an entry at T + 100000.
   */
  lemma HorizonEviction<V>(f: Graph<V>, g: Graph<V>, t: int)
    ensures Retained([TimestampedElement(f, t), TimestampedElement(g, t + 100000)], t + 100000 - 60000)
         == [TimestampedElement(g, t + 100000)]
  {
    var s := [TimestampedElement(f, t), TimestampedElement(g, t + 100000)];
    assert s[1..][1..] == [];
  }
}
