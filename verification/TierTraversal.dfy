/**
 The n-tier tree query: a recursive join that only continues with edges of the same BOM version whose
 hop label is one higher, and that stops below a row whose (supplier, part) key is already on its
 path.
 */
module TierTraversal {
  import opened Common
  import opened Digraph
  import opened RecursiveQuery
  import opened SupplyEdges
  import GapTraversal

  datatype TierRow = TierRow(edge: Edge, depth: nat, path: seq<(nat, nat)>, isCycle: bool)

  function Anchor(edges: seq<Edge>, boms: set<nat>): seq<TierRow> {
    if edges == [] then []
    else
      (if IsRootOf(edges[0], boms) then [TierRow(edges[0], 0, [Key(edges[0])], false)] else [])
      + Anchor(edges[1..], boms)
  }

  function Child(r: TierRow, e: Edge): TierRow {
    TierRow(e, r.depth + 1, r.path + [Key(e)], Key(e) in r.path)
  }

  function Expand(edges: seq<Edge>, r: TierRow): seq<TierRow> {
    if edges == [] then []
    else
      (if !r.isCycle && Follows(edges[0], r.edge) then [Child(r, edges[0])] else [])
      + Expand(edges[1..], r)
  }

  function Step(edges: seq<Edge>): TierRow -> seq<TierRow> {
    r => Expand(edges, r)
  }

  function Table(edges: seq<Edge>, boms: set<nat>, round: nat): seq<TierRow> {
    WorkTable(Anchor(edges, boms), Step(edges), round)
  }

  /** The rows of the n-tier query. As many rounds as there are hop labels are enough. */
  function Rows(edges: seq<Edge>, boms: set<nat>): seq<TierRow> {
    Accumulated(Anchor(edges, boms), Step(edges), MaxHop(edges) + 1)
  }

  lemma {:induction false} InAnchor(edges: seq<Edge>, boms: set<nat>, y: TierRow)
    ensures y in Anchor(edges, boms)
            <==> y.edge in edges && IsRootOf(y.edge, boms) && y == TierRow(y.edge, 0, [Key(y.edge)], false)
  {
    if edges != [] {
      InAnchor(edges[1..], boms, y);
      assert y.edge in edges <==> y.edge == edges[0] || y.edge in edges[1..];
    }
  }

  lemma {:induction false} InExpand(edges: seq<Edge>, r: TierRow, y: TierRow)
    ensures y in Expand(edges, r)
            <==> y.edge in edges && !r.isCycle && Follows(y.edge, r.edge) && y == Child(r, y.edge)
  {
    if edges != [] {
      InExpand(edges[1..], r, y);
      assert y.edge in edges <==> y.edge == edges[0] || y.edge in edges[1..];
    }
  }

  /** A root edge of the product followed by edges one hop further down the same BOM version each. */
  ghost predicate IsTrail(edges: seq<Edge>, boms: set<nat>, trail: seq<Edge>) {
    && |trail| >= 1
    && trail[0].parent.None? && trail[0].bom in boms
    && (forall i :: 0 <= i < |trail| ==> trail[i] in edges)
    && (forall i, j {:trigger trail[i], trail[j]} :: 0 <= i && j == i + 1 && j < |trail| ==>
          && trail[j].parent == Some(trail[i].child)
          && trail[j].bom == trail[i].bom
          && trail[j].hop == trail[i].hop + 1)
  }

  /** Edge k of the trail comes back to a supplier in a role it already has: same supplier, same part. */
  predicate Returns(trail: seq<Edge>, k: nat)
    requires k < |trail|
  {
    exists i :: 0 <= i < k && trail[i].child == trail[k].child && trail[i].part == trail[k].part
  }

  function Roles(trail: seq<Edge>): seq<(nat, nat)> {
    seq(|trail|, i requires 0 <= i < |trail| => (trail[i].child, trail[i].part))
  }

  /** The row of a trail: its last edge, its depth, and whether that edge returns. */
  function RowOf(trail: seq<Edge>): TierRow
    requires |trail| >= 1
  {
    var n := |trail| - 1;
    TierRow(trail[n], n, Roles(trail), Returns(trail, n))
  }

  /** The trails the query follows: only the last edge may return. */
  ghost predicate IsLiveTrail(edges: seq<Edge>, boms: set<nat>, trail: seq<Edge>) {
    IsTrail(edges, boms, trail) && forall k: nat :: k < |trail| - 1 ==> !Returns(trail, k)
  }

  ghost predicate FromTrail(edges: seq<Edge>, boms: set<nat>, round: nat, y: TierRow, trail: seq<Edge>) {
    IsLiveTrail(edges, boms, trail) && |trail| == round + 1 && y == RowOf(trail)
  }

  lemma AnchorIsTrails(edges: seq<Edge>, boms: set<nat>, y: TierRow)
    ensures y in Anchor(edges, boms) <==> exists trail :: FromTrail(edges, boms, 0, y, trail)
  {
    InAnchor(edges, boms, y);
    if y in Anchor(edges, boms) {
      assert FromTrail(edges, boms, 0, y, [y.edge]);
    }
    if trail :| FromTrail(edges, boms, 0, y, trail) {
      assert Roles(trail) == [Key(y.edge)];
    }
  }

  lemma RowAbove(edges: seq<Edge>, boms: set<nat>, round: nat, y: TierRow) returns (r: TierRow)
    requires round > 0 && y in Table(edges, boms, round)
    ensures r in Table(edges, boms, round - 1)
    ensures y.edge in edges && !r.isCycle && Follows(y.edge, r.edge) && y == Child(r, y.edge)
  {
    InNext(Step(edges), Table(edges, boms, round - 1), y);
    r :| r in Table(edges, boms, round - 1) && y in Step(edges)(r);
    InExpand(edges, r, y);
  }

  lemma RowBelow(edges: seq<Edge>, boms: set<nat>, round: nat, r: TierRow, y: TierRow)
    requires round > 0 && r in Table(edges, boms, round - 1)
    requires y.edge in edges && !r.isCycle && Follows(y.edge, r.edge) && y == Child(r, y.edge)
    ensures y in Table(edges, boms, round)
  {
    InExpand(edges, r, y);
    assert y in Step(edges)(r);
    InNext(Step(edges), Table(edges, boms, round - 1), y);
  }

  /** Round k of the query holds the rows of the live trails with k + 1 edges. */
  lemma {:induction false} TableIsTrails(edges: seq<Edge>, boms: set<nat>, round: nat, y: TierRow)
    ensures y in Table(edges, boms, round) <==> exists trail :: FromTrail(edges, boms, round, y, trail)
    decreases round
  {
    hide Expand, FromTrail;
    if round == 0 {
      AnchorIsTrails(edges, boms, y);
    } else {
      if y in Table(edges, boms, round) {
        var r := RowAbove(edges, boms, round, y);
        TableIsTrails(edges, boms, round - 1, r);
        var trail :| FromTrail(edges, boms, round - 1, r, trail);
        ExtendTrail(edges, boms, round, r, y, trail);
      }
      if trail :| FromTrail(edges, boms, round, y, trail) {
        var r, front := ShortenTrail(edges, boms, round, y, trail);
        TableIsTrails(edges, boms, round - 1, r);
        RowBelow(edges, boms, round, r, y);
      }
    }
  }

  lemma AddEdge(front: seq<Edge>, e: Edge)
    ensures Roles(front + [e]) == Roles(front) + [(e.child, e.part)]
    ensures Returns(front + [e], |front|) <==> (e.child, e.part) in Roles(front)
    ensures forall k: nat :: k < |front| ==> (Returns(front + [e], k) <==> Returns(front, k))
  {
    var longer := front + [e];
    assert forall i :: 0 <= i < |front| ==> longer[i] == front[i] && Roles(front)[i] == (front[i].child, front[i].part);
    if Returns(longer, |front|) {
      var i :| 0 <= i < |front| && longer[i].child == e.child && longer[i].part == e.part;
      assert Roles(front)[i] == (e.child, e.part);
    }
    forall k: nat | k < |front| && Returns(longer, k) ensures Returns(front, k) {
      var i :| 0 <= i < k && longer[i].child == longer[k].child && longer[i].part == longer[k].part;
      assert front[i].child == front[k].child;
    }
    forall k: nat | k < |front| && Returns(front, k) ensures Returns(longer, k) {
      var i :| 0 <= i < k && front[i].child == front[k].child && front[i].part == front[k].part;
      assert longer[i].child == longer[k].child;
    }
  }

  lemma ExtendTrail(edges: seq<Edge>, boms: set<nat>, round: nat, r: TierRow, y: TierRow, trail: seq<Edge>)
    requires round > 0 && FromTrail(edges, boms, round - 1, r, trail)
    requires y.edge in edges && !r.isCycle && Follows(y.edge, r.edge) && y == Child(r, y.edge)
    ensures FromTrail(edges, boms, round, y, trail + [y.edge])
  {
    hide Returns;
    AddEdge(trail, y.edge);
  }

  lemma ShortenTrail(edges: seq<Edge>, boms: set<nat>, round: nat, y: TierRow, trail: seq<Edge>)
      returns (r: TierRow, front: seq<Edge>)
    requires round > 0 && FromTrail(edges, boms, round, y, trail)
    ensures FromTrail(edges, boms, round - 1, r, front)
    ensures !r.isCycle && Follows(y.edge, r.edge) && y == Child(r, y.edge) && y.edge in edges
  {
    hide Returns;
    front := trail[..round];
    r := RowOf(front);
    assert trail == front + [y.edge];
    AddEdge(front, y.edge);
  }

  lemma {:induction false} TrailHop(edges: seq<Edge>, boms: set<nat>, trail: seq<Edge>, i: nat)
    requires IsTrail(edges, boms, trail) && i < |trail|
    ensures trail[i].hop == trail[0].hop + i && trail[i].bom == trail[0].bom
  {
    if i > 0 {
      TrailHop(edges, boms, trail, i - 1);
      assert trail[i].hop == trail[i - 1].hop + 1;
    }
  }

  /** The hop label rises by one in each round, so the query stops on every table, whatever its
      labels and cycles: the distance to the largest label is the measure. */
  lemma Terminates(edges: seq<Edge>, boms: set<nat>)
    ensures Table(edges, boms, MaxHop(edges) + 1) == []
  {
    var n := MaxHop(edges) + 1;
    if Table(edges, boms, n) != [] {
      var y := Table(edges, boms, n)[0];
      TableIsTrails(edges, boms, n, y);
      var trail :| FromTrail(edges, boms, n, y, trail);
      TrailHop(edges, boms, trail, n);
      MaxHopBounds(edges, trail[n]);
      assert false;
    }
  }

  /** The suppliers a trail passes form a walk from a root supplier. */
  function Suppliers(trail: seq<Edge>): seq<nat> {
    seq(|trail|, i requires 0 <= i < |trail| => trail[i].child)
  }

  lemma TrailIsWalk(edges: seq<Edge>, boms: set<nat>, trail: seq<Edge>)
    requires IsTrail(edges, boms, trail)
    ensures GapTraversal.RootWalk(edges, boms, Suppliers(trail), trail[|trail| - 1].child)
  {
    var w := Suppliers(trail);
    forall i, j | 0 <= i && j == i + 1 && j < |w| ensures Arc(SupplierArcs(edges), w[i], w[j]) {
      assert trail[j].parent == Some(trail[i].child);
      EdgeIsArc(edges, trail[j]);
    }
  }

  lemma RowHasTrail(edges: seq<Edge>, boms: set<nat>, r: TierRow) returns (trail: seq<Edge>)
    requires r in Rows(edges, boms)
    ensures FromTrail(edges, boms, r.depth, r, trail)
  {
    var k := RoundOf(Anchor(edges, boms), Step(edges), MaxHop(edges) + 1, r);
    TableIsTrails(edges, boms, k, r);
    trail :| FromTrail(edges, boms, k, r, trail);
  }

  lemma TrailHasRow(edges: seq<Edge>, boms: set<nat>, trail: seq<Edge>)
    requires IsLiveTrail(edges, boms, trail)
    ensures RowOf(trail) in Rows(edges, boms)
  {
    var k := |trail| - 1;
    assert FromTrail(edges, boms, k, RowOf(trail), trail);
    TableIsTrails(edges, boms, k, RowOf(trail));
    TrailHop(edges, boms, trail, k);
    MaxHopBounds(edges, trail[k]);
    RoundIsKept(Anchor(edges, boms), Step(edges), MaxHop(edges) + 1, k, RowOf(trail));
  }

  /**
   Every supplier the n-tier tree shows is covered by the gap report of the same product, at a depth
   no greater than in the tree. The tree is layered by hop labels within one BOM version and cut on
   (supplier, part) keys; the gap query follows edges of every BOM version and is cut on suppliers.
   */
  lemma TreeWithinGapReport(edges: seq<Edge>, boms: set<nat>, r: TierRow)
    requires r in Rows(edges, boms)
    ensures r.edge.child in GapTraversal.Report(edges, boms)
    ensures GapTraversal.Report(edges, boms)[r.edge.child] <= r.depth
  {
    var trail := RowHasTrail(edges, boms, r);
    TrailIsWalk(edges, boms, trail);
    GapTraversal.ReportIsShortestDistance(edges, boms, r.edge.child);
  }

  /** With an acyclic supplier graph no row is ever cut: no edge of a trail returns. */
  lemma AcyclicTrailsAreLive(edges: seq<Edge>, boms: set<nat>, trail: seq<Edge>)
    requires Acyclic(SupplierArcs(edges)) && IsTrail(edges, boms, trail)
    ensures Distinct(Roles(trail)) && IsLiveTrail(edges, boms, trail) && !RowOf(trail).isCycle
  {
    TrailIsWalk(edges, boms, trail);
    AcyclicWalksAreDistinct(SupplierArcs(edges), Suppliers(trail));
    forall i, k | 0 <= i < k < |trail| ensures trail[i].child != trail[k].child {
      assert Suppliers(trail)[i] != Suppliers(trail)[k];
    }
  }

  // ---- What counts as a cycle ----

  /** A row of the tree is flagged as a cycle iff the trail that led to it already has an edge with the
      same supplier and the same part. */
  lemma FlaggedIff(edges: seq<Edge>, boms: set<nat>, r: TierRow) returns (trail: seq<Edge>)
    requires r in Rows(edges, boms)
    ensures IsLiveTrail(edges, boms, trail) && |trail| == r.depth + 1 && trail[r.depth] == r.edge
    ensures r.isCycle
            <==> exists i :: 0 <= i < r.depth && trail[i].child == r.edge.child && trail[i].part == r.edge.part
  {
    trail := RowHasTrail(edges, boms, r);
  }

  /**
   A supplier that comes back with another part is no cycle: the query shows the edge unflagged and
   shows what lies below it.
   */
  lemma NewRoleIsFollowed(edges: seq<Edge>, boms: set<nat>, trail: seq<Edge>)
    requires IsTrail(edges, boms, trail)
    requires forall i, k :: 0 <= i < k < |trail| && trail[i].child == trail[k].child ==> trail[i].part != trail[k].part
    ensures RowOf(trail) in Rows(edges, boms) && !RowOf(trail).isCycle
    ensures forall e :: e in edges && IsTrail(edges, boms, trail + [e]) ==> RowOf(trail + [e]) in Rows(edges, boms)
  {
    TrailHasRow(edges, boms, trail);
    forall e | e in edges && IsTrail(edges, boms, trail + [e]) ensures RowOf(trail + [e]) in Rows(edges, boms) {
      AddEdge(trail, e);
      TrailHasRow(edges, boms, trail + [e]);
    }
  }

  /** One supplier that makes the pack (part 10) and the cells below it (part 20). */
  lemma DualRoleIsFollowed()
    ensures
      var pack, cells := Edge(0, 0, None, 1, 10, 0), Edge(1, 0, Some(1), 1, 20, 1);
      exists r :: r in Rows([pack, cells], {0}) && r.edge == cells && r.depth == 1 && !r.isCycle
  {
    var pack, cells := Edge(0, 0, None, 1, 10, 0), Edge(1, 0, Some(1), 1, 20, 1);
    NewRoleIsFollowed([pack, cells], {0}, [pack, cells]);
    assert RowOf([pack, cells]).edge == cells;
  }
}
