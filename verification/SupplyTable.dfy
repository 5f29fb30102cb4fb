/**
 The edge table and the two insert routines behind the service's pre-check, as a class; the insert
 step as a relation on tables; and what every run of requests keeps.
 */
module SupplyTable {
  import opened Common
  import opened Digraph
  import opened SupplyEdges
  import opened CyclePrecheck
  import TierTraversal

  /** The labels a subquery `hop_level + 1` can draw from: one above each edge that leads to `parent`. */
  function HopChoices(edges: seq<Edge>, bom: nat, parent: nat): set<nat> {
    set e | e in edges && e.bom == bom && e.child == parent :: e.hop + 1
  }

  predicate IsLeast(n: nat, s: set<nat>) {
    n in s && forall m :: m in s ==> n <= m
  }

  /**
   Register: create_supply_relation behind register_relation. Declare: declare_new_source behind
   declare_source_change, which has no test for parent = child.
   */
  datatype Request =
    | Register(bom: nat, parent: Option<nat>, child: nat, part: nat)
    | Declare(bom: nat, above: nat, child: nat, part: nat)

  /** The labels an insert may write. A registration orders by hop_level before LIMIT 1; a declaration
      does not, so any edge that leads to the parent may be taken. */
  predicate HopAllowed(edges: seq<Edge>, q: Request, hop: nat) {
    match q
    case Register(bom, None, _, _) => hop == 0
    case Register(bom, Some(p), _, _) =>
      var choices := HopChoices(edges, bom, p);
      if choices == {} then hop == 1 else IsLeast(hop, choices)
    case Declare(bom, p, _, _) =>
      var choices := HopChoices(edges, bom, p);
      if choices == {} then hop == 1 else hop in choices
  }

  function ParentOf(q: Request): Option<nat> {
    match q
    case Register(_, parent, _, _) => parent
    case Declare(_, above, _, _) => Some(above)
  }

  predicate SelfDeclaration(q: Request) {
    q.Declare? && q.above == q.child
  }

  /** Inserted, refused with an error, or never answered because the pre-check does not end. */
  datatype Outcome = Inserted(edge: Edge) | SameSupplier | CycleFound | NoAnswer

  function Refusal(edges: seq<Edge>, q: Request): Option<Outcome> {
    match ParentOf(q)
    case None => None
    case Some(p) =>
      if q.Register? && p == q.child then Some(SameSupplier)
      else
        match Answer(edges, p, q.child, RoundBound(edges))
        case WouldCycle => Some(CycleFound)
        case Running => Some(NoAnswer)
        case Clear => None
  }

  /** One request handled: the table afterwards and the outcome. */
  ghost predicate Handles(before: seq<Edge>, q: Request, after: seq<Edge>, outcome: Outcome) {
    match Refusal(before, q)
    case Some(refusal) => outcome == refusal && after == before
    case None =>
      && outcome.Inserted?
      && outcome.edge == Edge(|before|, q.bom, ParentOf(q), q.child, q.part, outcome.edge.hop)
      && HopAllowed(before, q, outcome.edge.hop)
      && after == before + [outcome.edge]
  }

  lemma {:induction false} LeastExists(s: set<nat>) returns (n: nat)
    requires s != {}
    ensures IsLeast(n, s)
  {
    var x :| x in s;
    if s == {x} {
      n := x;
    } else {
      var m := LeastExists(s - {x});
      assert forall y :: y in s ==> y == x || y in s - {x};
      n := if x <= m then x else m;
    }
  }

  class SupplyChainMap {
    var edges: seq<Edge>

    constructor ()
      ensures edges == []
    {
      edges := [];
    }

    /** register_relation: reject parent = child, run the pre-check, insert with the least label. */
    method RegisterRelation(bom: nat, parent: Option<nat>, child: nat, part: nat) returns (outcome: Outcome)
      modifies this
      ensures Handles(old(edges), Register(bom, parent, child, part), edges, outcome)
    {
      if parent.Some? {
        if parent.value == child {
          return SameSupplier;
        }
        var reply := Answer(edges, parent.value, child, RoundBound(edges));
        if reply == WouldCycle {
          return CycleFound;
        }
        if reply == Running {
          return NoAnswer;
        }
      }
      var hop: nat := 0;
      if parent.Some? {
        hop := 1;
        var choices := HopChoices(edges, bom, parent.value);
        if choices != {} {
          ghost var least := LeastExists(choices);
          hop :| hop in choices && forall m :: m in choices ==> hop <= m;
        }
      }
      var edge := Edge(|edges|, bom, parent, child, part, hop);
      edges := edges + [edge];
      outcome := Inserted(edge);
    }

    /** declare_source_change: run the pre-check, insert one above any edge that leads to the parent. */
    method DeclareSourceChange(bom: nat, parent: nat, child: nat, part: nat) returns (outcome: Outcome)
      modifies this
      ensures Handles(old(edges), Declare(bom, parent, child, part), edges, outcome)
    {
      var reply := Answer(edges, parent, child, RoundBound(edges));
      if reply == WouldCycle {
        return CycleFound;
      }
      if reply == Running {
        return NoAnswer;
      }
      var hop: nat := 1;
      var choices := HopChoices(edges, bom, parent);
      if choices != {} {
        hop :| hop in choices;
      }
      var edge := Edge(|edges|, bom, Some(parent), child, part, hop);
      edges := edges + [edge];
      outcome := Inserted(edge);
    }
  }

  // ---- What one request does ----

  /** Edge d leads to the parent of the request in its BOM version. */
  ghost predicate LeadsTo(d: Edge, q: Request) {
    d.bom == q.bom && ParentOf(q) == Some(d.child)
  }

  /** The label of an inserted edge: 0 for a root, 1 below an unplaced parent, else one more than an edge
      that leads to the parent, for a registration the one with the least label. */
  lemma LabelIsExact(before: seq<Edge>, q: Request, after: seq<Edge>, outcome: Outcome)
    requires Handles(before, q, after, outcome) && outcome.Inserted?
    ensures ParentOf(q).None? ==> outcome.edge.hop == 0
    ensures ParentOf(q).Some? && (forall d :: d in before ==> !LeadsTo(d, q)) ==> outcome.edge.hop == 1
    ensures (exists d :: d in before && LeadsTo(d, q)) ==>
              exists d :: d in before && LeadsTo(d, q) && outcome.edge.hop == d.hop + 1
    ensures q.Register? ==> forall d :: d in before && LeadsTo(d, q) ==> outcome.edge.hop <= d.hop + 1
  {
    if ParentOf(q).Some? {
      var choices := HopChoices(before, q.bom, ParentOf(q).value);
      forall d | d in before && LeadsTo(d, q) ensures d.hop + 1 in choices {
      }
      if choices != {} {
        assert outcome.edge.hop in choices;
      }
    }
  }

  /** A declaration may take the label above any edge that leads to the parent. */
  lemma AnyLabelIsPossible(before: seq<Edge>, q: Request, d: Edge)
    requires q.Declare? && Refusal(before, q).None? && d in before && LeadsTo(d, q)
    ensures
      var edge := Edge(|before|, q.bom, Some(q.above), q.child, q.part, d.hop + 1);
      Handles(before, q, before + [edge], Inserted(edge))
  {
    assert d.hop + 1 in HopChoices(before, q.bom, q.above);
  }

  /** When a request is refused, and how, in terms of the supplier graph; otherwise the table gains one
      edge with the request's columns. */
  lemma OutcomeIsExact(before: seq<Edge>, q: Request, after: seq<Edge>, outcome: Outcome)
    requires Handles(before, q, after, outcome)
    ensures
      var g := SupplierArcs(before);
      var above, child := ParentOf(q), q.child;
      if q.Register? && above == Some(child) then outcome == SameSupplier && after == before
      else if above.Some? && Reaches(g, child, above.value) then outcome == CycleFound && after == before
      else if above.Some? && CycleBelow(before, child) then outcome == NoAnswer && after == before
      else
        && outcome.Inserted? && after == before + [outcome.edge]
        && outcome.edge == Edge(|before|, q.bom, above, child, q.part, outcome.edge.hop)
  {
    if ParentOf(q).Some? {
      PrecheckIsExact(before, ParentOf(q).value, q.child);
    }
  }

  /** A run: the tables before and after each request, from the empty table. */
  ghost predicate IsRun(tables: seq<seq<Edge>>, requests: seq<Request>, outcomes: seq<Outcome>) {
    && |tables| == |requests| + 1 == |outcomes| + 1
    && tables[0] == []
    && forall i :: 0 <= i < |requests| ==> Handles(tables[i], requests[i], tables[i + 1], outcomes[i])
  }

  // ---- Hop labels ----

  /** The edge one hop above e, when there is one. */
  ghost predicate HasPredecessor(edges: seq<Edge>, e: Edge) {
    exists d :: d in edges && Follows(e, d)
  }

  /** Roots carry label 0, others at least 1, and a label of 2 or more has a predecessor. */
  ghost predicate Labelled(edges: seq<Edge>) {
    forall e :: e in edges ==>
      && (e.parent.None? <==> e.hop == 0)
      && (e.hop >= 2 ==> HasPredecessor(edges, e))
  }

  lemma InsertKeepsLabels(before: seq<Edge>, q: Request, after: seq<Edge>, outcome: Outcome)
    requires Labelled(before) && Handles(before, q, after, outcome)
    ensures Labelled(after)
  {
    if outcome.Inserted? {
      var edge := outcome.edge;
      forall e | e in after
        ensures (e.parent.None? <==> e.hop == 0) && (e.hop >= 2 ==> HasPredecessor(after, e))
      {
        if e in before {
          if e.hop >= 2 {
            var d :| d in before && Follows(e, d);
            assert d in after;
          }
        } else {
          assert e == edge;
          NewEdgeLabel(before, q, edge);
          if e.hop >= 2 {
            var d :| d in before && Follows(e, d);
            assert d in after;
          }
        }
      }
    }
  }

  lemma NewEdgeLabel(before: seq<Edge>, q: Request, edge: Edge)
    requires HopAllowed(before, q, edge.hop)
    requires edge == Edge(|before|, q.bom, ParentOf(q), q.child, q.part, edge.hop)
    ensures edge.parent.None? <==> edge.hop == 0
    ensures edge.parent.Some? && HopChoices(before, q.bom, edge.parent.value) != {} ==> HasPredecessor(before, edge)
    ensures edge.hop >= 2 ==> HasPredecessor(before, edge)
  {
    if edge.parent.Some? {
      var choices := HopChoices(before, q.bom, edge.parent.value);
      if choices != {} {
        assert edge.hop in choices;
        var d :| d in before && d.bom == q.bom && d.child == edge.parent.value && d.hop + 1 == edge.hop;
        assert Follows(edge, d);
      }
    }
  }

  /** Labels hold after any run, whatever was requested. */
  lemma {:induction false} RunsAreLabelled(
      tables: seq<seq<Edge>>, requests: seq<Request>, outcomes: seq<Outcome>, n: nat)
    requires IsRun(tables, requests, outcomes) && n <= |requests|
    ensures Labelled(tables[n])
  {
    if n > 0 {
      RunsAreLabelled(tables, requests, outcomes, n - 1);
      assert Handles(tables[n - 1], requests[n - 1], tables[n - 1 + 1], outcomes[n - 1]);
      InsertKeepsLabels(tables[n - 1], requests[n - 1], tables[n], outcomes[n - 1]);
    }
  }

  // ---- Acyclicity ----

  lemma InsertedArcs(before: seq<Edge>, edge: Edge)
    ensures SupplierArcs(before + [edge])
            == if edge.parent.Some? then SupplierArcs(before) + {(edge.parent.value, edge.child)}
               else SupplierArcs(before)
  {
    var after := before + [edge];
    assert forall e :: e in after <==> e in before || e == edge;
    forall a | a in SupplierArcs(before) ensures a in SupplierArcs(after) {
      var e := ArcHasEdge(before, a.0, a.1);
      EdgeIsArc(after, e);
    }
    forall a | a in SupplierArcs(after)
      ensures a in SupplierArcs(before) || (edge.parent.Some? && a == (edge.parent.value, edge.child))
    {
      var e := ArcHasEdge(after, a.0, a.1);
      if e in before {
        EdgeIsArc(before, e);
      }
    }
    if edge.parent.Some? {
      EdgeIsArc(after, edge);
    }
  }

  /** On an acyclic table every request is answered, and the table stays acyclic unless the request
      declares a supplier as its own source, which is always let through. */
  lemma InsertKeepsAcyclicIff(before: seq<Edge>, q: Request, after: seq<Edge>, outcome: Outcome)
    requires Acyclic(SupplierArcs(before)) && Handles(before, q, after, outcome)
    ensures outcome != NoAnswer
    ensures Acyclic(SupplierArcs(after)) <==> !SelfDeclaration(q)
  {
    if ParentOf(q).Some? {
      var p, c := ParentOf(q).value, q.child;
      AcyclicAnswers(before, p, c);
      if outcome.Inserted? {
        InsertedArcs(before, outcome.edge);
        AddArcKeepsAcyclicIff(SupplierArcs(before), p, c);
      }
    } else {
      InsertedArcs(before, outcome.edge);
    }
  }

  lemma HandlingOnlyAddsArcs(before: seq<Edge>, q: Request, after: seq<Edge>, outcome: Outcome)
    requires Handles(before, q, after, outcome)
    ensures SupplierArcs(before) <= SupplierArcs(after)
  {
    if outcome.Inserted? {
      InsertedArcs(before, outcome.edge);
    }
  }

  /** Over every run, the supplier graph is acyclic exactly as long as no supplier was declared as its
      own source. */
  lemma {:induction false} RunsStayAcyclicIff(
      tables: seq<seq<Edge>>, requests: seq<Request>, outcomes: seq<Outcome>, n: nat)
    requires IsRun(tables, requests, outcomes) && n <= |requests|
    ensures Acyclic(SupplierArcs(tables[n])) <==> forall i :: 0 <= i < n ==> !SelfDeclaration(requests[i])
  {
    if n == 0 {
      assert SupplierArcs(tables[0]) == {};
      EmptyIsAcyclic();
    } else {
      var m := n - 1;
      RunsStayAcyclicIff(tables, requests, outcomes, m);
      assert Handles(tables[m], requests[m], tables[m + 1], outcomes[m]);
      if Acyclic(SupplierArcs(tables[m])) {
        InsertKeepsAcyclicIff(tables[m], requests[m], tables[n], outcomes[m]);
      } else {
        HandlingOnlyAddsArcs(tables[m], requests[m], tables[n], outcomes[m]);
        if Acyclic(SupplierArcs(tables[n])) {
          FewerArcsStayAcyclic(SupplierArcs(tables[m]), SupplierArcs(tables[n]));
        }
      }
    }
  }

  /** A self-declaration is accepted on every acyclic table; afterwards the pre-check of any request
      that starts at or above that supplier hangs, unless it meets its parent first. */
  lemma SelfDeclarationHangsPrecheck(
      before: seq<Edge>, q: Request, after: seq<Edge>, outcome: Outcome, parent: nat, child: nat, rounds: nat)
    requires Acyclic(SupplierArcs(before)) && SelfDeclaration(q) && Handles(before, q, after, outcome)
    requires child == q.child || Reaches(SupplierArcs(after), child, q.child)
    requires !Reaches(SupplierArcs(after), child, parent)
    ensures outcome.Inserted?
    ensures Answer(after, parent, child, rounds) == Running
  {
    AcyclicAnswers(before, q.above, q.child);
    assert outcome.Inserted?;
    EdgeIsArc(after, outcome.edge);
    ArcReaches(SupplierArcs(after), q.child, q.child);
    assert CycleBelow(after, child);
    PrecheckIsExact(after, parent, child);
    if Answer(after, parent, child, rounds) != Running {
      AnswersInTime(after, parent, child, rounds);
    }
  }

  // ---- Completeness of the layered traversal ----

  /** The n-tier query of a product shows every edge of its BOM versions. */
  ghost predicate ShowsAll(edges: seq<Edge>, boms: set<nat>) {
    forall e :: e in edges && e.bom in boms ==> Shown(edges, boms, e)
  }

  ghost predicate Shown(edges: seq<Edge>, boms: set<nat>, e: Edge) {
    exists r :: r in TierTraversal.Rows(edges, boms) && r.edge == e
  }

  /** The parents of the edges at hop 1 are root suppliers of the same BOM version. */
  ghost predicate NoOrphans(edges: seq<Edge>, boms: set<nat>) {
    forall e :: e in edges && e.bom in boms && e.hop == 1 ==> HasPredecessor(edges, e)
  }

  lemma {:induction false} TrailTo(edges: seq<Edge>, boms: set<nat>, e: Edge) returns (trail: seq<Edge>)
    requires Labelled(edges) && NoOrphans(edges, boms) && e in edges && e.bom in boms
    ensures TierTraversal.IsTrail(edges, boms, trail) && trail[|trail| - 1] == e && |trail| == e.hop + 1
    decreases e.hop
  {
    if e.hop == 0 {
      trail := [e];
    } else {
      assert HasPredecessor(edges, e);
      var d :| d in edges && Follows(e, d);
      var above := TrailTo(edges, boms, d);
      trail := above + [e];
    }
  }

  /**
   After any run on which the graph stayed acyclic, the n-tier query shows every edge of the product
   if and only if no edge was labelled 1 by the fallback for an unplaced parent (and left orphaned).
   */
  lemma TreeIsCompleteIff(edges: seq<Edge>, boms: set<nat>)
    requires Labelled(edges) && Acyclic(SupplierArcs(edges))
    ensures ShowsAll(edges, boms) <==> NoOrphans(edges, boms)
  {
    if ShowsAll(edges, boms) {
      forall e | e in edges && e.bom in boms && e.hop == 1 ensures HasPredecessor(edges, e) {
        assert Shown(edges, boms, e);
        var r :| r in TierTraversal.Rows(edges, boms) && r.edge == e;
        var trail := TierTraversal.RowHasTrail(edges, boms, r);
        assert e.parent.Some?;
        var n := |trail| - 1;
        assert n > 0 && Follows(trail[n], trail[n - 1]);
      }
    }
    if NoOrphans(edges, boms) {
      forall e | e in edges && e.bom in boms ensures Shown(edges, boms, e) {
        var trail := TrailTo(edges, boms, e);
        TierTraversal.AcyclicTrailsAreLive(edges, boms, trail);
        TierTraversal.TrailHasRow(edges, boms, trail);
        assert TierTraversal.RowOf(trail).edge == e;
      }
    }
  }

  /** On every row of the tree the depth is the hop label of its edge. */
  lemma DepthIsHopLabel(edges: seq<Edge>, boms: set<nat>, r: TierTraversal.TierRow)
    requires Labelled(edges) && r in TierTraversal.Rows(edges, boms)
    ensures r.depth == r.edge.hop
  {
    var trail := TierTraversal.RowHasTrail(edges, boms, r);
    TierTraversal.TrailHop(edges, boms, trail, |trail| - 1);
  }

  /** Whether the parent is a root insert or already placed in the BOM version. */
  ghost predicate ParentPlaced(edges: seq<Edge>, q: Request) {
    ParentOf(q).None? || HopChoices(edges, q.bom, ParentOf(q).value) != {}
  }

  lemma PredecessorIsPlaced(before: seq<Edge>, edge: Edge)
    requires HasPredecessor(before + [edge], edge)
    ensures edge.parent.Some? && HopChoices(before, edge.bom, edge.parent.value) != {}
  {
    var d :| d in before + [edge] && Follows(edge, d);
    assert d.hop + 1 in HopChoices(before, edge.bom, d.child);
  }

  /**
   Seen from one insert: a complete tree stays complete if and only if the parent is already placed in
   that BOM version. This is the guard of the fallback branch that labels the edge 1.
   */
  lemma InsertKeepsTreeCompleteIff(before: seq<Edge>, boms: set<nat>, q: Request, after: seq<Edge>, outcome: Outcome)
    requires Labelled(before) && Acyclic(SupplierArcs(before)) && ShowsAll(before, boms)
    requires Handles(before, q, after, outcome) && outcome.Inserted? && q.bom in boms && !SelfDeclaration(q)
    ensures ShowsAll(after, boms) <==> ParentPlaced(before, q)
  {
    var edge := outcome.edge;
    InsertKeepsLabels(before, q, after, outcome);
    InsertKeepsAcyclicIff(before, q, after, outcome);
    TreeIsCompleteIff(before, boms);
    TreeIsCompleteIff(after, boms);
    NewEdgeLabel(before, q, edge);
    if ParentPlaced(before, q) {
      forall e | e in after && e.bom in boms && e.hop == 1 ensures HasPredecessor(after, e) {
        assert HasPredecessor(before, e);
        var d :| d in before && Follows(e, d);
        assert d in after;
      }
    } else {
      assert edge in after && edge.hop == 1;
      if HasPredecessor(after, edge) {
        PredecessorIsPlaced(before, edge);
      }
    }
  }

  /** Over every run without a self-declaration: the tree of every product shows all its edges iff it has
      no orphans, and on each of its rows the depth is the hop label. */
  lemma RunTreeIsCompleteIff(
      tables: seq<seq<Edge>>, requests: seq<Request>, outcomes: seq<Outcome>, boms: set<nat>, n: nat)
    requires IsRun(tables, requests, outcomes) && n <= |requests|
    requires forall i :: 0 <= i < n ==> !SelfDeclaration(requests[i])
    ensures ShowsAll(tables[n], boms) <==> NoOrphans(tables[n], boms)
    ensures forall r :: r in TierTraversal.Rows(tables[n], boms) ==> r.depth == r.edge.hop
  {
    RunsAreLabelled(tables, requests, outcomes, n);
    RunsStayAcyclicIff(tables, requests, outcomes, n);
    TreeIsCompleteIff(tables[n], boms);
    forall r | r in TierTraversal.Rows(tables[n], boms) ensures r.depth == r.edge.hop {
      DepthIsHopLabel(tables[n], boms, r);
    }
  }

  /** The two results joined over a whole run: without self-declarations and with every parent placed
      when its edge is inserted, the tree shows every edge of every BOM version. */
  lemma {:induction false} RunsShowEverything(
      tables: seq<seq<Edge>>, requests: seq<Request>, outcomes: seq<Outcome>, boms: set<nat>, n: nat)
    requires IsRun(tables, requests, outcomes) && n <= |requests|
    requires forall i :: 0 <= i < n ==> !SelfDeclaration(requests[i]) && ParentPlaced(tables[i], requests[i])
    ensures ShowsAll(tables[n], boms)
  {
    if n > 0 {
      var m := n - 1;
      RunsShowEverything(tables, requests, outcomes, boms, m);
      RunsAreLabelled(tables, requests, outcomes, m);
      RunsAreLabelled(tables, requests, outcomes, n);
      RunsStayAcyclicIff(tables, requests, outcomes, m);
      RunsStayAcyclicIff(tables, requests, outcomes, n);
      assert Handles(tables[m], requests[m], tables[m + 1], outcomes[m]);
      TreeIsCompleteIff(tables[m], boms);
      TreeIsCompleteIff(tables[n], boms);
      if outcomes[m].Inserted? {
        NewEdgeLabel(tables[m], requests[m], outcomes[m].edge);
        forall e | e in tables[n] && e.bom in boms && e.hop == 1 ensures HasPredecessor(tables[n], e) {
          assert HasPredecessor(tables[m], e);
          var d :| d in tables[m] && Follows(e, d);
          assert d in tables[n];
        }
      }
    }
  }

  // ---- Concrete failures ----

  /** Registering a relation below an unplaced supplier succeeds, and the tree misses the edge. */
  lemma OrphanIsHidden()
    ensures
      var edge := Edge(0, 0, Some(1), 2, 3, 1);
      Handles([], Register(0, Some(1), 2, 3), [edge], Inserted(edge)) && !ShowsAll([edge], {0})
  {
    var edge := Edge(0, 0, Some(1), 2, 3, 1);
    assert SupplierArcs([]) == {};
    EmptyIsAcyclic();
    AcyclicAnswers([], 1, 2);
    InsertKeepsTreeCompleteIff([], {0}, Register(0, Some(1), 2, 3), [edge], Inserted(edge));
  }

  /** A supplier declared as its own source is accepted, and the next pre-check for it never ends. */
  lemma SelfDeclarationIsAccepted(rounds: nat)
    ensures
      var edge := Edge(0, 0, Some(1), 1, 3, 1);
      && Handles([], Declare(0, 1, 1, 3), [edge], Inserted(edge))
      && !Acyclic(SupplierArcs([edge]))
      && Answer([edge], 2, 1, rounds) == Running
  {
    var edge := Edge(0, 0, Some(1), 1, 3, 1);
    var q := Declare(0, 1, 1, 3);
    assert SupplierArcs([]) == {};
    EmptyIsAcyclic();
    AcyclicAnswers([], 1, 1);
    InsertKeepsAcyclicIff([], q, [edge], Inserted(edge));
    if Reaches(SupplierArcs([edge]), 1, 2) {
      var w :| WalkBetween(SupplierArcs([edge]), w, 1, 2) && |w| >= 2;
      SubWalk(SupplierArcs([edge]), w, |w| - 2, |w|);
      assert Arc(SupplierArcs([edge]), w[|w| - 2], w[|w| - 1]);
      var e := ArcHasEdge([edge], w[|w| - 2], w[|w| - 1]);
    }
    SelfDeclarationHangsPrecheck([], q, [edge], Inserted(edge), 2, 1, rounds);
  }
}
