/** The whole run of network-automation-and-topology-scripts.py after the
    prompts (lines 153-173): collect the neighbour table over the hosts,
    clean it as `generate_drawio_topology` does, and build the graph
    elements from the cleaned rows. */
module Topology {
  import opened Distinct
  import opened Table
  import Collector
  import Drawio

  /** The graph elements written for the hosts' answers: no hostname is
      drawn twice, and there is one edge per row of the cleaned table. */
  function Diagram(devices: seq<Collector.Device>): (c: seq<Drawio.Cell>)
    ensures NoDups(Drawio.Labels(c))
    ensures |Drawio.Edges(c)| == |Dedup(Collector.Collect(devices))|
  {
    Drawio.Build(Dedup(Collector.Collect(devices))).cells
  }

  /** A hostname is drawn as a node exactly when it is an end of a collected
      row. */
  lemma DiagramNodes(devices: seq<Collector.Device>, h: string)
    ensures h in Drawio.Labels(Diagram(devices)) <==>
      exists row :: row in Collector.Collect(devices) && HasEnd(row, h)
  {
    var d := Dedup(Collector.Collect(devices));
    Drawio.BuildNodes(d);
    DistinctFirstHas(Drawio.Endpoints(d), h);
    Drawio.EndpointsHas(d, h);
    DedupEnds(Collector.Collect(devices), h);
  }

  /** Every collected link is drawn in both directions: an edge from the
      node of its Hostname-A to that of its Hostname-B labelled with its
      interfaces in that order, and one back with the interfaces swapped. */
  lemma DiagramEdgesBothWays(devices: seq<Collector.Device>, row: Row)
    requires row in Collector.Collect(devices)
    ensures exists e :: e in Drawio.Edges(Diagram(devices)) && Drawio.EdgeOf(Diagram(devices), e, row)
    ensures exists e :: e in Drawio.Edges(Diagram(devices)) && Drawio.EdgeOf(Diagram(devices), e, Rev(row))
  {
    var d := Dedup(Collector.Collect(devices));
    var cells := Diagram(devices);
    RevRev(row, row);
    var k :| 0 <= k < |d| && d[k] == row;
    assert Drawio.Edges(cells)[k] in Drawio.Edges(cells);
    var j :| 0 <= j < |d| && d[j] == Rev(row);
    assert Drawio.Edges(cells)[j] in Drawio.Edges(cells);
  }

  /** One edge per row of the cleaned table: never fewer than the distinct
      collected rows, never more than twice the collected rows. */
  lemma DiagramEdgeCount(devices: seq<Collector.Device>)
    ensures var t := Collector.Collect(devices);
      && |Drawio.Edges(Diagram(devices))| == |Dedup(t)|
      && |DistinctFirst(t)| <= |Drawio.Edges(Diagram(devices))| <= 2 * |t|
  {
    DedupSize(Collector.Collect(devices));
  }

  /** The steps as the script runs them: the accumulation loop, the
      duplicate drop over the stacked frames, and the element loop. */
  method Run(devices: seq<Collector.Device>) returns (cells: seq<Drawio.Cell>)
    ensures cells == Diagram(devices)
  {
    var table := Collector.CollectAll(devices);
    var cleaned := DropDuplicates(table + Reversed(table));
    cells := Drawio.GenerateCells(cleaned);
  }
}
