/** The graph builder `generate_drawio_xml` (lines 85-115 of
    network-automation-and-topology-scripts.py): one ellipse per hostname,
    created when the hostname is first seen (Hostname-A of a row before its
    Hostname-B), and one edge per row from the node of Hostname-A to the node
    of Hostname-B, labelled with the two interfaces.

    Each call of `generate_unique_id` creates exactly one element, so the
    fresh identifiers are modelled by the element's own position in the
    output: distinct calls get distinct identifiers, which is all the
    builder relies on. */
module Drawio {
  import opened Distinct
  import opened Table

  // The fixed geometry of line 100: every node at (100, 100), 80 by 80.
  const X: int := 100
  const Y: int := 100
  const Side: int := 80

  /** One `mxCell` element: a node or an edge between two nodes. */
  datatype Cell =
    | Vertex(id: nat, value: string, x: int, y: int, width: int, height: int)
    | Edge(id: nat, value: string, source: nat, target: nat)

  /** The node of lines 98-101 for `host`. */
  function Node(id: nat, host: string): Cell {
    Vertex(id, host, X, Y, Side, Side)
  }

  /** The value shown on the edge of a row (line 112). */
  function EdgeLabel(r: Row): string {
    r.interfaceA + " to " + r.interfaceB
  }

  /** The builder's state: `unique_ids` and `xml_elements`. */
  datatype Graph = Graph(ids: map<string, nat>, cells: seq<Cell>)

  /** Lines 96-108: a node for `h` unless it already has one. */
  function AddHost(g: Graph, h: string): (g': Graph)
    ensures h in g'.ids
    ensures forall x :: x in g'.ids <==> x in g.ids || x == h
    ensures forall x :: x in g.ids ==> g'.ids[x] == g.ids[x]
  {
    if h in g.ids then g
    else Graph(g.ids[h := |g.cells|], g.cells + [Node(|g.cells|, h)])
  }

  /** Lines 110-114: the edge of a row whose two ends have nodes. */
  function AddEdge(g: Graph, r: Row): Graph
    requires r.hostnameA in g.ids && r.hostnameB in g.ids
  {
    Graph(g.ids, g.cells + [Edge(|g.cells|, EdgeLabel(r), g.ids[r.hostnameA], g.ids[r.hostnameB])])
  }

  /** Lines 91-114: the nodes of a row's two ends, then its edge. */
  function AddRow(g: Graph, r: Row): Graph {
    AddEdge(AddHost(AddHost(g, r.hostnameA), r.hostnameB), r)
  }

  /** Lines 85-115: the state after the rows, in order. The nodes are the
      distinct hostnames in first-seen order, each name mapped to its own
      node, and the edges are the rows' edges in row order. */
  function Build(rows: seq<Row>): (g: Graph)
    ensures Mirrors(g, rows)
  {
    if |rows| == 0 then Graph(map[], [])
    else
      var front := Front(rows);
      FrontLast(rows);
      AddRowStep(Build(front), front, rows[|rows| - 1]);
      AddRow(Build(front), rows[|rows| - 1])
  }

  /** The hostnames in the order the builder looks at them: A, then B, row
      by row. */
  function Endpoints(rows: seq<Row>): (e: seq<string>)
    ensures |e| == 2 * |rows|
  {
    if |rows| == 0 then [] else Endpoints(Front(rows)) + [rows[|rows| - 1].hostnameA, rows[|rows| - 1].hostnameB]
  }

  /** A name is looked at exactly when it is an end of some row. */
  lemma {:induction false} EndpointsHas(rows: seq<Row>, h: string)
    ensures h in Endpoints(rows) <==> exists row :: row in rows && HasEnd(row, h)
  {
    if |rows| > 0 {
      var front := Front(rows);
      EndpointsHas(front, h);
      FrontLast(rows);
      var last := rows[|rows| - 1];
      assert Endpoints(rows) == Endpoints(front) + [last.hostnameA, last.hostnameB];
      if h in Endpoints(front) {
        var x :| x in front && HasEnd(x, h);
        assert x in rows;
      }
      if h == last.hostnameA || h == last.hostnameB {
        assert HasEnd(last, h);
      }
    }
  }

  /** The labels of the nodes, in output order. */
  function Labels(cells: seq<Cell>): seq<string> {
    if |cells| == 0 then []
    else
      var front := Labels(Front(cells));
      match cells[|cells| - 1]
      case Vertex(_, value, _, _, _, _) => front + [value]
      case Edge(_, _, _, _) => front
  }

  /** The edges, in output order. */
  function Edges(cells: seq<Cell>): seq<Cell> {
    if |cells| == 0 then []
    else
      var front := Edges(Front(cells));
      if cells[|cells| - 1].Edge? then front + [cells[|cells| - 1]] else front
  }

  lemma LabelsSnoc(cells: seq<Cell>, c: Cell)
    ensures Labels(cells + [c]) == if c.Vertex? then Labels(cells) + [c.value] else Labels(cells)
    ensures Edges(cells + [c]) == if c.Edge? then Edges(cells) + [c] else Edges(cells)
  {
    assert Front(cells + [c]) == cells;
  }

  /** Identifiers are positions, every name in the map points at its own
      node, and every node is the one its name points at. */
  ghost predicate Valid(g: Graph) {
    && (forall k :: 0 <= k < |g.cells| ==> g.cells[k].id == k)
    && Pointing(g)
    && (forall k :: 0 <= k < |g.cells| && g.cells[k].Vertex? ==>
          g.cells[k].value in g.ids && g.ids[g.cells[k].value] == k)
  }

  /** Every name in the map points at its own node. */
  ghost predicate Pointing(g: Graph) {
    forall h :: h in g.ids ==> g.ids[h] < |g.cells| && g.cells[g.ids[h]] == Node(g.ids[h], h)
  }

  /** `e` is the edge of row `r`: it carries the row's label and joins the
      nodes of the row's two hostnames, both emitted before it. */
  ghost predicate EdgeOf(cells: seq<Cell>, e: Cell, r: Row) {
    && e.Edge? && e.value == EdgeLabel(r)
    && e.source < e.id && e.target < e.id && e.id < |cells|
    && cells[e.source] == Node(e.source, r.hostnameA)
    && cells[e.target] == Node(e.target, r.hostnameB)
  }

  /** What the builder has produced after `rows`: the nodes are the distinct
      hostnames in first-seen order, and the edges are the rows' edges in
      row order. */
  ghost predicate Mirrors(g: Graph, rows: seq<Row>) {
    Valid(g) && NodesOf(g, Endpoints(rows)) && EdgesOf(g.cells, rows)
  }

  /** The names with a node are those looked at, and the nodes are labelled
      with them in first-seen order. */
  ghost predicate NodesOf(g: Graph, names: seq<string>) {
    && (forall h :: h in g.ids <==> h in names)
    && Labels(g.cells) == DistinctFirst(names)
  }

  /** The edges are the rows' edges, in row order. */
  ghost predicate EdgesOf(cells: seq<Cell>, rows: seq<Row>) {
    && |Edges(cells)| == |rows|
    && forall k :: 0 <= k < |rows| ==> EdgeOf(cells, Edges(cells)[k], rows[k])
  }

  /** Appending cells leaves an edge's facts about earlier cells as they
      were. */
  lemma EdgeOfExtend(cells: seq<Cell>, more: seq<Cell>, e: Cell, r: Row)
    requires EdgeOf(cells, e, r)
    ensures EdgeOf(cells + more, e, r)
  {
    assert (cells + more)[e.source] == cells[e.source];
    assert (cells + more)[e.target] == cells[e.target];
  }

  /** Adding a host keeps the state valid. */
  lemma AddHostValid(g: Graph, h: string)
    requires Valid(g)
    ensures Valid(AddHost(g, h))
  {
    if h !in g.ids {
      var n := |g.cells|;
      var g' := AddHost(g, h);
      assert g'.cells == g.cells + [Node(n, h)] && g'.ids == g.ids[h := n];
      AddHostPointing(g, h);
      forall k | 0 <= k < |g'.cells| && g'.cells[k].Vertex?
        ensures g'.cells[k].value in g'.ids && g'.ids[g'.cells[k].value] == k
      {
        if k < n {
          assert g'.cells[k] == g.cells[k];
        }
      }
    }
  }

  /** A host seen before adds nothing to the labels. */
  lemma AddHostLabelsSeen(g: Graph, names: seq<string>, h: string)
    requires NodesOf(g, names) && h in g.ids
    ensures NodesOf(AddHost(g, h), names + [h])
  {
    var n := names + [h];
    assert Front(n) == names && n[|n| - 1] == h;
    FrontLast(n);
    assert h in DistinctFirst(names) by {
      var j :| 0 <= j < |names| && names[j] == h;
    }
  }

  /** A new host is appended to the labels. */
  lemma AddHostLabelsNew(g: Graph, names: seq<string>, h: string)
    requires NodesOf(g, names) && h !in g.ids
    ensures NodesOf(AddHost(g, h), names + [h])
  {
    var n := names + [h];
    assert Front(n) == names && n[|n| - 1] == h;
    FrontLast(n);
    LabelsSnoc(g.cells, Node(|g.cells|, h));
    assert h !in DistinctFirst(names);
  }

  /** Adding a host lists it among the node labels exactly when it was
      new: the labels stay the first-seen order of the names looked at. */
  lemma AddHostLabels(g: Graph, names: seq<string>, h: string)
    requires NodesOf(g, names)
    ensures NodesOf(AddHost(g, h), names + [h])
  {
    if h in g.ids {
      AddHostLabelsSeen(g, names, h);
    } else {
      AddHostLabelsNew(g, names, h);
    }
  }

  /** `b` starts with `a`. */
  ghost predicate Extends<T>(a: seq<T>, b: seq<T>) {
    |a| <= |b| && b[..|a|] == a
  }

  lemma ExtendsTrans<T>(a: seq<T>, b: seq<T>, c: seq<T>)
    requires Extends(a, b) && Extends(b, c)
    ensures Extends(a, c)
  {
    assert c[..|a|] == c[..|b|][..|a|];
  }

  /** Adding a host adds no edge and keeps the existing cells. */
  lemma AddHostPrefix(g: Graph, h: string)
    ensures Edges(AddHost(g, h).cells) == Edges(g.cells)
    ensures Extends(g.cells, AddHost(g, h).cells)
  {
    if h !in g.ids {
      LabelsSnoc(g.cells, Node(|g.cells|, h));
    }
  }

  /** Adding a host keeps every name pointing at its own node. */
  lemma AddHostPointing(g: Graph, h: string)
    requires Pointing(g)
    ensures Pointing(AddHost(g, h))
  {
    if h !in g.ids {
      var g' := AddHost(g, h);
      forall x | x in g'.ids
        ensures g'.ids[x] < |g'.cells| && g'.cells[g'.ids[x]] == Node(g'.ids[x], x)
      {
        if x != h {
          assert g'.cells[g.ids[x]] == g.cells[g.ids[x]];
        }
      }
    }
  }

  /** Adding an edge keeps the state valid and the nodes as they were. */
  lemma AddEdgeValid(g: Graph, r: Row)
    requires Valid(g) && r.hostnameA in g.ids && r.hostnameB in g.ids
    ensures Valid(AddEdge(g, r)) && Labels(AddEdge(g, r).cells) == Labels(g.cells)
  {
    var e := Edge(|g.cells|, EdgeLabel(r), g.ids[r.hostnameA], g.ids[r.hostnameB]);
    LabelsSnoc(g.cells, e);
    var g' := AddEdge(g, r);
    forall k | 0 <= k < |g'.cells| && g'.cells[k].Vertex?
      ensures g'.cells[k].value in g'.ids && g'.ids[g'.cells[k].value] == k
    {
      assert g'.cells[k] == g.cells[k];
    }
    forall x | x in g'.ids
      ensures g'.ids[x] < |g'.cells| && g'.cells[g'.ids[x]] == Node(g'.ids[x], x)
    {
      assert g'.cells[g.ids[x]] == g.cells[g.ids[x]];
    }
  }

  /** Adding an edge appends the row's edge to the edges. */
  lemma AddEdgeEdges(g: Graph, r: Row)
    requires Pointing(g) && r.hostnameA in g.ids && r.hostnameB in g.ids
    ensures var g' := AddEdge(g, r);
      && Extends(g.cells, g'.cells)
      && |Edges(g'.cells)| == |Edges(g.cells)| + 1 && Extends(Edges(g.cells), Edges(g'.cells))
      && EdgeOf(g'.cells, Edges(g'.cells)[|Edges(g.cells)|], r)
  {
    var e := Edge(|g.cells|, EdgeLabel(r), g.ids[r.hostnameA], g.ids[r.hostnameB]);
    LabelsSnoc(g.cells, e);
    var g' := AddEdge(g, r);
    assert g'.cells[e.source] == g.cells[e.source];
    assert g'.cells[e.target] == g.cells[e.target];
  }

  /** Edges already built keep their facts when cells are appended and
      edges are appended after them. */
  lemma EdgesOfExtend(cells: seq<Cell>, cells': seq<Cell>, rows: seq<Row>, r: Row)
    requires EdgesOf(cells, rows)
    requires Extends(cells, cells')
    requires |Edges(cells')| == |Edges(cells)| + 1 && Extends(Edges(cells), Edges(cells'))
    requires EdgeOf(cells', Edges(cells')[|Edges(cells)|], r)
    ensures EdgesOf(cells', rows + [r])
  {
    var all := rows + [r];
    forall k | 0 <= k < |all|
      ensures EdgeOf(cells', Edges(cells')[k], all[k])
    {
      if k < |rows| {
        var ek := Edges(cells)[k];
        assert Edges(cells')[k] == ek;
        EdgeOfExtend(cells, cells'[|cells|..], ek, rows[k]);
        assert cells + cells'[|cells|..] == cells';
      }
    }
  }

  /** A row keeps the state valid. */
  lemma AddRowValid(g: Graph, r: Row)
    requires Valid(g)
    ensures Valid(AddRow(g, r))
  {
    var g1 := AddHost(g, r.hostnameA);
    AddHostValid(g, r.hostnameA);
    AddHostValid(g1, r.hostnameB);
    AddEdgeValid(AddHost(g1, r.hostnameB), r);
  }

  /** A row looks at its Hostname-A, then its Hostname-B. */
  lemma AddRowNodes(g: Graph, names: seq<string>, r: Row)
    requires NodesOf(g, names)
    ensures NodesOf(AddRow(g, r), names + [r.hostnameA] + [r.hostnameB])
  {
    var g1 := AddHost(g, r.hostnameA);
    AddHostLabels(g, names, r.hostnameA);
    var g2 := AddHost(g1, r.hostnameB);
    AddHostLabels(g1, names + [r.hostnameA], r.hostnameB);
    LabelsSnoc(g2.cells, Edge(|g2.cells|, EdgeLabel(r), g2.ids[r.hostnameA], g2.ids[r.hostnameB]));
  }

  /** A row appends its edge to the edges. */
  lemma AddRowEdges(g: Graph, rows: seq<Row>, r: Row)
    requires Pointing(g) && EdgesOf(g.cells, rows)
    ensures EdgesOf(AddRow(g, r).cells, rows + [r])
  {
    var g1 := AddHost(g, r.hostnameA);
    AddHostPrefix(g, r.hostnameA);
    AddHostPointing(g, r.hostnameA);
    var g2 := AddHost(g1, r.hostnameB);
    AddHostPrefix(g1, r.hostnameB);
    AddHostPointing(g1, r.hostnameB);
    AddEdgeEdges(g2, r);
    var g' := AddEdge(g2, r);
    ExtendsTrans(g.cells, g1.cells, g2.cells);
    ExtendsTrans(g.cells, g2.cells, g'.cells);
    EdgesOfExtend(g.cells, g'.cells, rows, r);
  }

  /** One row keeps `Mirrors`. */
  lemma AddRowStep(g: Graph, rows: seq<Row>, r: Row)
    requires Mirrors(g, rows)
    ensures Mirrors(AddRow(g, r), rows + [r])
  {
    var all := rows + [r];
    assert Front(all) == rows && all[|all| - 1] == r;
    assert Endpoints(all) == Endpoints(rows) + [r.hostnameA] + [r.hostnameB];
    AddRowValid(g, r);
    AddRowNodes(g, Endpoints(rows), r);
    AddRowEdges(g, rows, r);
  }

  /** One node per distinct hostname, in the order the hostnames are first
      seen, and nothing else labelled as a node; every node at (100, 100)
      and 80 by 80; identifiers distinct. */
  lemma BuildNodes(rows: seq<Row>)
    ensures var cells := Build(rows).cells;
      && Labels(cells) == DistinctFirst(Endpoints(rows))
      && (forall k :: 0 <= k < |cells| ==> cells[k].id == k)
      && forall k :: 0 <= k < |cells| && cells[k].Vertex? ==> cells[k] == Node(k, cells[k].value)
  {
    var g := Build(rows);
    forall k | 0 <= k < |g.cells| && g.cells[k].Vertex?
      ensures g.cells[k] == Node(k, g.cells[k].value)
    {
      assert g.ids[g.cells[k].value] == k;
    }
  }

  /** A row from a host to itself creates a single node, and its edge loops
      on it. */
  lemma BuildSelfLoop(r: Row)
    requires r.hostnameA == r.hostnameB
    ensures Build([r]).cells == [Node(0, r.hostnameA), Edge(1, EdgeLabel(r), 0, 0)]
  {
    assert Front([r]) == [];
  }

  /** The loop of lines 90-114 over the cleaned table, with the map and the
      element list updated in place. */
  method GenerateCells(rows: seq<Row>) returns (cells: seq<Cell>)
    ensures cells == Build(rows).cells
  {
    var ids: map<string, nat> := map[];
    cells := [];
    for i := 0 to |rows|
      invariant Graph(ids, cells) == Build(rows[..i])
    {
      var r := rows[i];
      BuildPrefix(rows, i);
      if r.hostnameA !in ids {
        ids := ids[r.hostnameA := |cells|];
        cells := cells + [Node(|cells|, r.hostnameA)];
      }
      if r.hostnameB !in ids {
        ids := ids[r.hostnameB := |cells|];
        cells := cells + [Node(|cells|, r.hostnameB)];
      }
      cells := cells + [Edge(|cells|, EdgeLabel(r), ids[r.hostnameA], ids[r.hostnameB])];
    }
    assert rows[..|rows|] == rows;
  }

  /** The state after one more row of the list. */
  lemma BuildPrefix(rows: seq<Row>, i: nat)
    requires i < |rows|
    ensures Build(rows[..i + 1]) == AddRow(Build(rows[..i]), rows[i])
  {
    assert Front(rows[..i + 1]) == rows[..i];
  }
}
