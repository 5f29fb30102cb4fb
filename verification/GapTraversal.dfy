/**
 The gap-analysis traversal: a recursive query guarded by the path of suppliers it has visited,
 reduced to one depth per supplier.
 */
module GapTraversal {
  import opened Common
  import opened Digraph
  import opened RecursiveQuery
  import opened SupplyEdges

  datatype GapRow = GapRow(child: nat, depth: nat, path: seq<nat>)

  /** Anchor rows: the root edges of the product. */
  function Anchor(edges: seq<Edge>, boms: set<nat>): seq<GapRow> {
    if edges == [] then []
    else
      (if IsRootOf(edges[0], boms) then [GapRow(edges[0].child, 0, [edges[0].child])] else [])
      + Anchor(edges[1..], boms)
  }

  /** The recursive join: any edge of any BOM version below the row's supplier, unless it leads back
      to a supplier on the row's path. */
  predicate Joins(e: Edge, r: GapRow) {
    e.parent == Some(r.child) && e.child !in r.path
  }

  function Expand(edges: seq<Edge>, r: GapRow): seq<GapRow> {
    if edges == [] then []
    else
      (if Joins(edges[0], r) then [GapRow(edges[0].child, r.depth + 1, r.path + [edges[0].child])] else [])
      + Expand(edges[1..], r)
  }

  function Step(edges: seq<Edge>): GapRow -> seq<GapRow> {
    r => Expand(edges, r)
  }

  function Table(edges: seq<Edge>, boms: set<nat>, round: nat): seq<GapRow> {
    WorkTable(Anchor(edges, boms), Step(edges), round)
  }

  function Rows(edges: seq<Edge>, boms: set<nat>, rounds: nat): seq<GapRow> {
    Accumulated(Anchor(edges, boms), Step(edges), rounds)
  }

  /** unique_suppliers: the least depth of each supplier. */
  function MinDepths(rows: seq<GapRow>): map<nat, nat> {
    if rows == [] then map[]
    else
      var last := rows[|rows| - 1];
      var m := MinDepths(rows[..|rows| - 1]);
      if last.child in m && m[last.child] <= last.depth then m else m[last.child := last.depth]
  }

  /** The depths the gap query reports. As many rounds as there are suppliers are enough. */
  function Report(edges: seq<Edge>, boms: set<nat>): map<nat, nat> {
    MinDepths(Rows(edges, boms, |Children(edges)|))
  }

  /** root_suppliers: the suppliers of the rows at depth 0. */
  function RootAnchors(edges: seq<Edge>, boms: set<nat>): set<nat> {
    set r | r in Rows(edges, boms, |Children(edges)|) && r.depth == 0 :: r.child
  }

  lemma {:induction false} InAnchor(edges: seq<Edge>, boms: set<nat>, y: GapRow)
    ensures y in Anchor(edges, boms)
            <==> exists e :: e in edges && IsRootOf(e, boms) && y == GapRow(e.child, 0, [e.child])
  {
    if edges != [] {
      InAnchor(edges[1..], boms, y);
      assert forall e :: e in edges <==> e == edges[0] || e in edges[1..];
    }
  }

  lemma {:induction false} InExpand(edges: seq<Edge>, r: GapRow, y: GapRow)
    ensures y in Expand(edges, r)
            <==> exists e :: e in edges && Joins(e, r) && y == GapRow(e.child, r.depth + 1, r.path + [e.child])
  {
    if edges != [] {
      InExpand(edges[1..], r, y);
      assert forall e :: e in edges <==> e == edges[0] || e in edges[1..];
    }
  }

  /** A path that visits no supplier twice, from a root supplier of the product downwards. */
  ghost predicate SimplePath(edges: seq<Edge>, boms: set<nat>, path: seq<nat>) {
    && IsWalk(SupplierArcs(edges), path)
    && Distinct(path)
    && path[0] in RootSuppliers(edges, boms)
  }

  ghost predicate RowOf(edges: seq<Edge>, boms: set<nat>, round: nat, y: GapRow) {
    && SimplePath(edges, boms, y.path)
    && |y.path| == round + 1
    && y.depth == round
    && y.child == y.path[round]
  }

  /** Round k of the query holds exactly one kind of row: the simple root paths with k arcs. */
  lemma {:induction false} TableIsSimplePaths(edges: seq<Edge>, boms: set<nat>, round: nat, y: GapRow)
    ensures y in Table(edges, boms, round) <==> RowOf(edges, boms, round, y)
    decreases round
  {
    if round == 0 {
      InAnchor(edges, boms, y);
      if RowOf(edges, boms, 0, y) {
        var e :| e in edges && IsRootOf(e, boms) && e.child == y.path[0];
        assert y.path == [e.child];
        assert y == GapRow(e.child, 0, [e.child]);
      }
    } else {
      var prior := Table(edges, boms, round - 1);
      InNext(Step(edges), prior, y);
      if y in Table(edges, boms, round) {
        var r :| r in prior && y in Step(edges)(r);
        ExtendRow(edges, boms, round, r, y);
      }
      if RowOf(edges, boms, round, y) {
        var r := SplitRow(edges, boms, round, y);
        assert r in prior && y in Step(edges)(r);
      }
    }
  }

  lemma {:induction false} ExtendRow(edges: seq<Edge>, boms: set<nat>, round: nat, r: GapRow, y: GapRow)
    requires round > 0 && r in Table(edges, boms, round - 1) && y in Expand(edges, r)
    ensures RowOf(edges, boms, round, y)
    decreases round, 1
  {
    TableIsSimplePaths(edges, boms, round - 1, r);
    InExpand(edges, r, y);
    var e :| e in edges && Joins(e, r) && y == GapRow(e.child, r.depth + 1, r.path + [e.child]);
    EdgeIsArc(edges, e);
    ExtendWalk(SupplierArcs(edges), r.path, e.child);
  }

  lemma {:induction false} SplitRow(edges: seq<Edge>, boms: set<nat>, round: nat, y: GapRow) returns (r: GapRow)
    requires round > 0 && RowOf(edges, boms, round, y)
    ensures r in Table(edges, boms, round - 1) && y in Expand(edges, r)
    decreases round, 1
  {
    var front := y.path[..round];
    r := GapRow(front[round - 1], round - 1, front);
    SubWalk(SupplierArcs(edges), y.path, 0, round);
    TableIsSimplePaths(edges, boms, round - 1, r);
    assert Arc(SupplierArcs(edges), y.path[round - 1], y.path[round]);
    var e := ArcHasEdge(edges, y.path[round - 1], y.path[round]);
    assert y.path == front + [e.child];
    assert Joins(e, r);
    InExpand(edges, r, y);
  }

  /** The query stops on every table, cycles and self-edges included: no simple path is longer than
      the number of suppliers. */
  lemma Terminates(edges: seq<Edge>, boms: set<nat>)
    ensures Table(edges, boms, |Children(edges)|) == []
  {
    var n := |Children(edges)|;
    if Table(edges, boms, n) != [] {
      var y := Table(edges, boms, n)[0];
      TableIsSimplePaths(edges, boms, n, y);
      forall x | x in y.path ensures x in Children(edges) {
        var k :| 0 <= k < |y.path| && y.path[k] == x;
        WalkInChildren(edges, y.path, k);
      }
      DistinctFits(y.path, Children(edges));
      assert false;
    }
  }

  lemma {:induction false} MinDepthsIsMinimum(rows: seq<GapRow>, s: nat)
    ensures s in MinDepths(rows) <==> exists r :: r in rows && r.child == s
    ensures s in MinDepths(rows) ==> exists r :: r in rows && r.child == s && r.depth == MinDepths(rows)[s]
    ensures forall r :: r in rows && r.child == s ==> MinDepths(rows)[s] <= r.depth
  {
    if rows != [] {
      var last, front := rows[|rows| - 1], rows[..|rows| - 1];
      MinDepthsIsMinimum(front, s);
      assert forall r :: r in rows <==> r in front || r == last;
      assert s in MinDepths(rows) <==> s in MinDepths(front) || s == last.child;
    }
  }

  /** A walk along `arcs` arcs from a root supplier of the product to s. */
  ghost predicate RootWalk(edges: seq<Edge>, boms: set<nat>, w: seq<nat>, s: nat) {
    IsWalk(SupplierArcs(edges), w) && w[0] in RootSuppliers(edges, boms) && w[|w| - 1] == s
  }

  /** Each walk from a root is matched by a row at most as deep. */
  lemma WalkGivesRow(edges: seq<Edge>, boms: set<nat>, w: seq<nat>, s: nat) returns (r: GapRow)
    requires RootWalk(edges, boms, w, s)
    ensures r in Rows(edges, boms, |Children(edges)|) && r.child == s && r.depth < |w|
  {
    var p := Simplify(SupplierArcs(edges), w);
    r := GapRow(s, |p| - 1, p);
    TableIsSimplePaths(edges, boms, |p| - 1, r);
    Terminates(edges, boms);
    if |p| - 1 >= |Children(edges)| {
      StaysEmpty(Anchor(edges, boms), Step(edges), |Children(edges)|, |p| - 1);
    }
    RoundIsKept(Anchor(edges, boms), Step(edges), |Children(edges)|, |p| - 1, r);
  }

  lemma RowGivesWalk(edges: seq<Edge>, boms: set<nat>, r: GapRow)
    requires r in Rows(edges, boms, |Children(edges)|)
    ensures RootWalk(edges, boms, r.path, r.child) && |r.path| == r.depth + 1
  {
    var k := RoundOf(Anchor(edges, boms), Step(edges), |Children(edges)|, r);
    TableIsSimplePaths(edges, boms, k, r);
  }

  /**
   The gap report lists exactly the suppliers reachable from the product's roots, with the length of
   a shortest walk from a root, and marks as root anchors exactly the suppliers at depth 0.
   */
  lemma ReportIsShortestDistance(edges: seq<Edge>, boms: set<nat>, s: nat)
    ensures s in Report(edges, boms) <==> exists w :: RootWalk(edges, boms, w, s)
    ensures s in Report(edges, boms) ==>
              && (exists w :: RootWalk(edges, boms, w, s) && |w| == Report(edges, boms)[s] + 1)
              && (forall w :: RootWalk(edges, boms, w, s) ==> Report(edges, boms)[s] < |w|)
    ensures s in RootAnchors(edges, boms) <==> s in Report(edges, boms) && Report(edges, boms)[s] == 0
  {
    var rows := Rows(edges, boms, |Children(edges)|);
    MinDepthsIsMinimum(rows, s);
    forall w | RootWalk(edges, boms, w, s)
      ensures s in Report(edges, boms) && Report(edges, boms)[s] < |w|
    {
      var r := WalkGivesRow(edges, boms, w, s);
    }
    if s in Report(edges, boms) {
      var r :| r in rows && r.child == s && r.depth == Report(edges, boms)[s];
      RowGivesWalk(edges, boms, r);
    }
  }
}
