/** Rows of supply_chain_map and the supplier graph they span. */
module SupplyEdges {
  import opened Common
  import opened Digraph

  /**
   One edge of a supply-chain map: in BOM version `bom`, supplier `child` delivers `part` to
   supplier `parent`; an edge without a parent is a root (the OEM). `hop` is the distance label
   written when the row is inserted.
   */
  datatype Edge = Edge(id: nat, bom: nat, parent: Option<nat>, child: nat, part: nat, hop: nat)

  /** The supplier graph: all edges of all BOM versions together, roots left out. */
  ghost function SupplierArcs(edges: seq<Edge>): Arcs {
    set e | e in edges && e.parent.Some? :: (e.parent.value, e.child)
  }

  function Children(edges: seq<Edge>): set<nat> {
    set e | e in edges :: e.child
  }

  predicate IsRootOf(e: Edge, boms: set<nat>) {
    e.bom in boms && e.parent.None?
  }

  /** The suppliers at the top of a product, whose BOM versions are `boms`. */
  function RootSuppliers(edges: seq<Edge>, boms: set<nat>): set<nat> {
    set e | e in edges && e.parent.None? && e.bom in boms :: e.child
  }

  /** The layered join of the tier and contribution queries: `e` continues `prev` one hop further
      down the same BOM version. */
  predicate Follows(e: Edge, prev: Edge) {
    e.parent == Some(prev.child) && e.bom == prev.bom && e.hop == prev.hop + 1
  }

  /** The key of the cycle test of those queries. */
  function Key(e: Edge): (nat, nat) {
    (e.child, e.part)
  }

  function MaxHop(edges: seq<Edge>): nat {
    if edges == [] then 0
    else
      var m := MaxHop(edges[1..]);
      if m < edges[0].hop then edges[0].hop else m
  }

  lemma {:induction false} MaxHopBounds(edges: seq<Edge>, e: Edge)
    requires e in edges
    ensures e.hop <= MaxHop(edges)
  {
    if e != edges[0] {
      MaxHopBounds(edges[1..], e);
    }
  }

  lemma ArcHasEdge(edges: seq<Edge>, a: nat, b: nat) returns (e: Edge)
    requires Arc(SupplierArcs(edges), a, b)
    ensures e in edges && e.parent == Some(a) && e.child == b
  {
    assert (a, b) in SupplierArcs(edges);
    e :| e in edges && e.parent.Some? && (e.parent.value, e.child) == (a, b);
  }

  lemma EdgeIsArc(edges: seq<Edge>, e: Edge)
    requires e in edges && e.parent.Some?
    ensures Arc(SupplierArcs(edges), e.parent.value, e.child)
  {
  }

  lemma ExtendWalk(g: Arcs, w: seq<nat>, c: nat)
    requires IsWalk(g, w) && Arc(g, w[|w| - 1], c)
    ensures WalkBetween(g, w + [c], w[0], c)
  {
    assert IsWalk(g, [w[|w| - 1], c]);
    JoinWalks(g, w, [w[|w| - 1], c]);
    assert [w[|w| - 1], c][1..] == [c];
  }

  lemma PrependWalk(g: Arcs, a: nat, w: seq<nat>)
    requires IsWalk(g, w) && Arc(g, a, w[0])
    ensures WalkBetween(g, [a] + w, a, w[|w| - 1])
  {
    assert IsWalk(g, [a, w[0]]);
    JoinWalks(g, [a, w[0]], w);
    assert [a, w[0]] + w[1..] == [a] + w;
  }

  /** Every supplier on a walk that starts at a child is a child of some edge. */
  lemma WalkInChildren(edges: seq<Edge>, w: seq<nat>, k: nat)
    requires IsWalk(SupplierArcs(edges), w) && k < |w|
    requires k == 0 ==> w[0] in Children(edges)
    ensures w[k] in Children(edges)
  {
    if k > 0 {
      assert Arc(SupplierArcs(edges), w[k - 1], w[k]);
      var e := ArcHasEdge(edges, w[k - 1], w[k]);
    }
  }
}
