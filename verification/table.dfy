/** The neighbour table and the clean-up step of `generate_drawio_topology`
    (lines 77-80 of network-automation-and-topology-scripts.py): the frame is
    stacked on a copy of itself whose columns were relabelled positionally,
    and exact duplicate rows are dropped, keeping the first. */
module Table {
  import opened Distinct

  /** One row under the columns Hostname-A, Interface-A, Interface-B,
      Hostname-B (line 168). */
  datatype Row = Row(hostnameA: string, interfaceA: string, interfaceB: string, hostnameB: string)

  /** A row of the relabelled copy of line 78, read back under the original
      column names once `concat` aligns the two frames by name: the link as
      seen from its other end. */
  function Rev(r: Row): Row {
    Row(r.hostnameB, r.interfaceB, r.interfaceA, r.hostnameA)
  }

  /** `h` is one of the two hostnames of the row. */
  predicate HasEnd(r: Row, h: string) {
    r.hostnameA == h || r.hostnameB == h
  }

  /** Reversing twice gives the row back, and only equal rows have equal
      reverses. */
  lemma RevRev(r: Row, q: Row)
    ensures Rev(Rev(r)) == r
    ensures Rev(r) == Rev(q) <==> r == q
  {
  }

  /** The relabelled copy of the whole table. */
  function Reversed(t: seq<Row>): (u: seq<Row>)
    ensures |u| == |t| && forall k :: 0 <= k < |t| ==> u[k] == Rev(t[k])
  {
    if |t| == 0 then [] else [Rev(t[0])] + Reversed(t[1..])
  }

  /** The rows of the table stacked on its relabelled copy: the collected
      rows and their reverses. */
  lemma StackMembers(t: seq<Row>)
    ensures forall x :: x in t + Reversed(t) <==> x in t || Rev(x) in t
  {
    var u := t + Reversed(t);
    forall x
      ensures x in u <==> x in t || Rev(x) in t
    {
      if x in u {
        var j :| 0 <= j < |u| && u[j] == x;
        if j >= |t| {
          assert u[j] == Rev(t[j - |t|]);
          RevRev(t[j - |t|], t[j - |t|]);
        }
      }
      if Rev(x) in t {
        var k :| 0 <= k < |t| && t[k] == Rev(x);
        assert u[|t| + k] == Rev(t[k]);
        RevRev(x, x);
      }
      if x in t {
        var k :| 0 <= k < |t| && t[k] == x;
        assert u[k] == x;
      }
    }
  }

  /** Lines 79-80: the table stacked on its relabelled copy, exact duplicate
      rows dropped, first occurrence kept. The result holds each row once,
      and a row is in it exactly when it or its reverse was collected. */
  function Dedup(t: seq<Row>): (d: seq<Row>)
    ensures NoDups(d)
    ensures forall x :: x in d <==> x in t || Rev(x) in t
  {
    StackMembers(t);
    DistinctFirst(t + Reversed(t))
  }

  /** The cleaned table mentions the same hostnames as the collected one. */
  lemma DedupEnds(t: seq<Row>, h: string)
    ensures (exists x :: x in Dedup(t) && HasEnd(x, h)) <==> (exists x :: x in t && HasEnd(x, h))
  {
    if exists x :: x in Dedup(t) && HasEnd(x, h) {
      var x :| x in Dedup(t) && HasEnd(x, h);
      if x !in t {
        assert HasEnd(Rev(x), h);
      }
    }
  }

  /** The cleaned table holds a row exactly when it holds the row's reverse. */
  lemma DedupSymmetric(t: seq<Row>, x: Row)
    ensures x in Dedup(t) <==> Rev(x) in Dedup(t)
  {
    RevRev(x, x);
  }

  /** The collected rows come first, in first-occurrence order; every row
      after them is the reverse of a collected row and was not collected
      itself. */
  lemma DedupOriginalsFirst(t: seq<Row>)
    ensures var p, d := DistinctFirst(t), Dedup(t);
      && |p| <= |d| && d[..|p|] == p
      && forall k :: |p| <= k < |d| ==> d[k] !in t && Rev(d[k]) in t
  {
    var p, d := DistinctFirst(t), Dedup(t);
    DistinctFirstAppend(t, Reversed(t));
    forall k | |p| <= k < |d|
      ensures d[k] !in t && Rev(d[k]) in t
    {
      assert d[k] in d;
    }
  }

  /** A table without duplicate rows that holds the reverse of each of its
      rows is left as it is. */
  lemma DedupOfSymmetric(t: seq<Row>)
    requires NoDups(t)
    requires forall k :: 0 <= k < |t| ==> Rev(t[k]) in t
    ensures Dedup(t) == t
  {
    var u := Reversed(t);
    forall x | x in u
      ensures x in t
    {
      var k :| 0 <= k < |u| && u[k] == x;
    }
    DistinctFirstAbsorbs(t, u);
    DistinctFirstOfNoDups(t);
  }

  /** Cleaning the cleaned table changes nothing. */
  lemma DedupIdempotent(t: seq<Row>)
    ensures Dedup(Dedup(t)) == Dedup(t)
  {
    var d := Dedup(t);
    forall k | 0 <= k < |d|
      ensures Rev(d[k]) in d
    {
      DedupSymmetric(t, d[k]);
    }
    DedupOfSymmetric(d);
  }

  /** The table is never shrunk below its distinct collected rows and at
      most doubles. */
  lemma DedupSize(t: seq<Row>)
    ensures |DistinctFirst(t)| <= |Dedup(t)| <= 2 * |t|
  {
    DedupOriginalsFirst(t);
  }

  /** A link reported from both of its ends keeps both rows: the step does
      not merge the two directions of a link into one. */
  lemma DedupBothEnds(x: Row)
    requires Rev(x) != x
    ensures Dedup([x, Rev(x)]) == [x, Rev(x)]
  {
    RevRev(x, x);
    DedupOfSymmetric([x, Rev(x)]);
  }

  /** A link reported from one end only gains its reverse. */
  lemma DedupOneSided(x: Row)
    requires Rev(x) != x
    ensures Dedup([x]) == [x, Rev(x)]
  {
    assert [x] + Reversed([x]) == [x, Rev(x)];
    DistinctFirstOfNoDups([x, Rev(x)]);
  }

  /** A row equal to its own reverse appears once. */
  lemma DedupSelfReverse(x: Row)
    requires Rev(x) == x
    ensures Dedup([x]) == [x]
  {
    DedupOfSymmetric([x]);
  }
}
