/**
 The BOM tree of a product: a recursive part query, capped in depth, whose flat rows are linked in place
 into a nested forest.
 */
module BomTree {
  import opened Common
  import opened Digraph
  import opened RecursiveQuery

  /** A row of parts, and a row of bom_items of the BOM version. */
  datatype Part = Part(id: nat, parent: Option<nat>)
  datatype Item = Item(part: nat, quantity: real)

  datatype Row = Row(part: nat, parent: Option<nat>, depth: nat, quantity: Option<real>)

  const DEPTH_CAP := 5

  /** part_id is the primary key. */
  ghost predicate KeyUnique(parts: seq<Part>) {
    forall p, q :: p in parts && q in parts && p.id == q.id ==> p == q
  }

  /** The subquery of the anchor: the parts of the BOM that have a parent. */
  function WithParent(parts: seq<Part>, items: seq<Item>): set<nat> {
    set p, i | p in parts && i in items && i.part == p.id && p.parent.Some? :: p.id
  }

  /** parent_part_id NOT IN (subquery): for a NULL parent this is true only when the subquery is empty. */
  predicate IsAnchor(parts: seq<Part>, items: seq<Item>, p: Part) {
    var s := WithParent(parts, items);
    s == {} || (p.parent.Some? && p.parent.value !in s)
  }

  function AnchorRows(parts: seq<Part>, items: seq<Item>, i: Item, candidates: seq<Part>): seq<Row> {
    if candidates == [] then []
    else
      var p := candidates[0];
      (if p.id == i.part && IsAnchor(parts, items, p) then [Row(p.id, p.parent, 0, Some(i.quantity))] else [])
      + AnchorRows(parts, items, i, candidates[1..])
  }

  function Anchor(parts: seq<Part>, items: seq<Item>, rest: seq<Item>): seq<Row> {
    if rest == [] then [] else AnchorRows(parts, items, rest[0], parts) + Anchor(parts, items, rest[1..])
  }

  function Expand(parts: seq<Part>, r: Row): seq<Row> {
    if parts == [] then []
    else
      (if r.depth < DEPTH_CAP && parts[0].parent == Some(r.part)
       then [Row(parts[0].id, parts[0].parent, r.depth + 1, None)] else [])
      + Expand(parts[1..], r)
  }

  function Step(parts: seq<Part>): Row -> seq<Row> {
    r => Expand(parts, r)
  }

  function Table(parts: seq<Part>, items: seq<Item>, round: nat): seq<Row> {
    WorkTable(Anchor(parts, items, items), Step(parts), round)
  }

  function Rows(parts: seq<Part>, items: seq<Item>): seq<Row> {
    Accumulated(Anchor(parts, items, items), Step(parts), DEPTH_CAP + 1)
  }

  /** What the session hands over: the rows of the query, ordered by depth first. */
  ghost predicate IsResult(rows: seq<Row>, parts: seq<Part>, items: seq<Item>) {
    && multiset(rows) == multiset(Rows(parts, items))
    && forall i, j :: 0 <= i < j < |rows| ==> rows[i].depth <= rows[j].depth
  }

  // ---- Rows of the query ----

  lemma {:induction false} InAnchorRows(parts: seq<Part>, items: seq<Item>, i: Item, candidates: seq<Part>, y: Row)
    ensures y in AnchorRows(parts, items, i, candidates)
            <==> exists p :: p in candidates && p.id == i.part && IsAnchor(parts, items, p)
                              && y == Row(p.id, p.parent, 0, Some(i.quantity))
  {
    if candidates != [] {
      InAnchorRows(parts, items, i, candidates[1..], y);
      assert forall p :: p in candidates <==> p == candidates[0] || p in candidates[1..];
    }
  }

  lemma {:induction false} InAnchor(parts: seq<Part>, items: seq<Item>, rest: seq<Item>, y: Row)
    ensures y in Anchor(parts, items, rest)
            <==> exists i, p :: i in rest && p in parts && p.id == i.part && IsAnchor(parts, items, p)
                                 && y == Row(p.id, p.parent, 0, Some(i.quantity))
  {
    if rest != [] {
      InAnchor(parts, items, rest[1..], y);
      InAnchorRows(parts, items, rest[0], parts, y);
      assert forall i :: i in rest <==> i == rest[0] || i in rest[1..];
    }
  }

  lemma {:induction false} InExpand(parts: seq<Part>, r: Row, y: Row)
    ensures y in Expand(parts, r)
            <==> r.depth < DEPTH_CAP && Part(y.part, y.parent) in parts && y.parent == Some(r.part)
                 && y.depth == r.depth + 1 && y.quantity.None?
  {
    if parts != [] {
      InExpand(parts[1..], r, y);
      var p := Part(y.part, y.parent);
      assert p in parts <==> p == parts[0] || p in parts[1..];
    }
  }

  /** The rows of round k sit at depth k, show the true parent, and carry a quantity only at depth 0. */
  lemma {:induction false} TableRow(parts: seq<Part>, items: seq<Item>, round: nat, y: Row)
    requires y in Table(parts, items, round)
    ensures y.depth == round <= DEPTH_CAP && Part(y.part, y.parent) in parts
    ensures y.quantity.Some? <==> round == 0
    ensures round > 0 ==> y.parent.Some? && HasRow(parts, items, round - 1, y.parent.value)
  {
    if round == 0 {
      InAnchor(parts, items, items, y);
    } else {
      InNext(Step(parts), Table(parts, items, round - 1), y);
      var r :| r in Table(parts, items, round - 1) && y in Step(parts)(r);
      TableRow(parts, items, round - 1, r);
      InExpand(parts, r, y);
    }
  }

  ghost predicate HasRow(parts: seq<Part>, items: seq<Item>, round: nat, part: nat) {
    exists y :: y in Table(parts, items, round) && y.part == part
  }

  /** Below a row that is not at the cap, every child of the part has a row one deeper. */
  lemma ChildHasRow(parts: seq<Part>, items: seq<Item>, round: nat, p: Part)
    requires p in parts && p.parent.Some? && round < DEPTH_CAP && HasRow(parts, items, round, p.parent.value)
    ensures HasRow(parts, items, round + 1, p.id)
  {
    var r :| r in Table(parts, items, round) && r.part == p.parent.value;
    TableRow(parts, items, round, r);
    var y := Row(p.id, p.parent, round + 1, None);
    InExpand(parts, r, y);
    InNext(Step(parts), Table(parts, items, round), y);
    assert y in Step(parts)(r);
    assert y in Table(parts, items, round + 1);
  }

  lemma ResultRow(rows: seq<Row>, parts: seq<Part>, items: seq<Item>, r: Row)
    requires IsResult(rows, parts, items) && r in rows
    ensures r.depth <= DEPTH_CAP && r in Table(parts, items, r.depth)
  {
    assert r in multiset(Rows(parts, items));
    var k := RoundOf(Anchor(parts, items, items), Step(parts), DEPTH_CAP + 1, r);
    TableRow(parts, items, k, r);
  }

  lemma TableInResult(rows: seq<Row>, parts: seq<Part>, items: seq<Item>, round: nat, part: nat) returns (r: Row)
    requires IsResult(rows, parts, items) && HasRow(parts, items, round, part)
    ensures r in rows && r.part == part && r.depth == round && round <= DEPTH_CAP
  {
    r :| r in Table(parts, items, round) && r.part == part;
    TableRow(parts, items, round, r);
    RoundIsKept(Anchor(parts, items, items), Step(parts), DEPTH_CAP + 1, round, r);
    assert r in multiset(rows);
  }

  /** The query stops at the cap on every table of parts, self-references included. */
  lemma Terminates(parts: seq<Part>, items: seq<Item>)
    ensures Table(parts, items, DEPTH_CAP + 1) == []
  {
    if Table(parts, items, DEPTH_CAP + 1) != [] {
      TableRow(parts, items, DEPTH_CAP + 1, Table(parts, items, DEPTH_CAP + 1)[0]);
    }
  }

  // ---- The node map: later rows overwrite, the first row fixes the position ----

  function NodeMap(rows: seq<Row>): map<nat, Row> {
    if rows == [] then map[]
    else
      var last := rows[|rows| - 1];
      NodeMap(rows[..|rows| - 1])[last.part := last]
  }

  /** The keys of the dict, in insertion order. */
  function Keys(rows: seq<Row>): seq<nat> {
    if rows == [] then []
    else
      var before := Keys(rows[..|rows| - 1]);
      var part := rows[|rows| - 1].part;
      if part in before then before else before + [part]
  }

  lemma {:induction false} KeysOfMap(rows: seq<Row>)
    ensures Distinct(Keys(rows))
    ensures forall p :: p in Keys(rows) <==> p in NodeMap(rows)
    ensures forall r :: r in rows ==> r.part in NodeMap(rows)
    ensures forall p :: p in NodeMap(rows) ==> NodeMap(rows)[p] in rows && NodeMap(rows)[p].part == p
  {
    if rows != [] {
      var front, last := rows[..|rows| - 1], rows[|rows| - 1];
      assert rows == front + [last];
      KeysOfMap(front);
    }
  }

  /** Rows come ordered by depth, so the row that survives in the map is a deepest one. */
  lemma {:induction false} SurvivorIsDeepest(rows: seq<Row>, r: Row)
    requires forall i, j :: 0 <= i < j < |rows| ==> rows[i].depth <= rows[j].depth
    requires r in rows
    ensures r.part in NodeMap(rows) && r.depth <= NodeMap(rows)[r.part].depth
  {
    KeysOfMap(rows);
    var front, last := rows[..|rows| - 1], rows[|rows| - 1];
    assert rows == front + [last];
    if last.part != r.part {
      SurvivorIsDeepest(front, r);
    }
  }

  /** Children and roots in dict order. */
  function ChildrenIn(m: map<nat, Row>, order: seq<nat>, parent: nat): seq<nat>
    requires forall p :: p in order ==> p in m
  {
    if order == [] then []
    else
      var front, last := order[..|order| - 1], order[|order| - 1];
      ChildrenIn(m, front, parent) + (if m[last].parent == Some(parent) then [last] else [])
  }

  function RootsIn(m: map<nat, Row>, order: seq<nat>): seq<nat>
    requires forall p :: p in order ==> p in m
  {
    if order == [] then []
    else
      var front, last := order[..|order| - 1], order[|order| - 1];
      RootsIn(m, front) + (if m[last].depth == 0 then [last] else [])
  }

  function Children(rows: seq<Row>, parent: nat): seq<nat> {
    KeysOfMap(rows);
    ChildrenIn(NodeMap(rows), Keys(rows), parent)
  }

  function Roots(rows: seq<Row>): seq<nat> {
    KeysOfMap(rows);
    RootsIn(NodeMap(rows), Keys(rows))
  }

  lemma {:induction false} ChildrenInAre(m: map<nat, Row>, order: seq<nat>, parent: nat)
    requires (forall p :: p in order ==> p in m) && Distinct(order)
    ensures forall c :: c in ChildrenIn(m, order, parent) <==> c in order && m[c].parent == Some(parent)
    ensures Distinct(ChildrenIn(m, order, parent))
  {
    if order != [] {
      var front, last := order[..|order| - 1], order[|order| - 1];
      assert order == front + [last];
      DistinctElementIsNew(order, |order| - 1);
      ChildrenInAre(m, front, parent);
    }
  }

  lemma {:induction false} RootsInAre(m: map<nat, Row>, order: seq<nat>)
    requires (forall p :: p in order ==> p in m) && Distinct(order)
    ensures forall c :: c in RootsIn(m, order) <==> c in order && m[c].depth == 0
    ensures Distinct(RootsIn(m, order))
  {
    if order != [] {
      var front, last := order[..|order| - 1], order[|order| - 1];
      assert order == front + [last];
      DistinctElementIsNew(order, |order| - 1);
      RootsInAre(m, front);
    }
  }

  lemma ChildrenAre(rows: seq<Row>, parent: nat)
    ensures forall c :: c in Children(rows, parent) <==> c in NodeMap(rows) && NodeMap(rows)[c].parent == Some(parent)
    ensures Distinct(Children(rows, parent))
  {
    KeysOfMap(rows);
    ChildrenInAre(NodeMap(rows), Keys(rows), parent);
  }

  lemma RootsAre(rows: seq<Row>)
    ensures forall c :: c in Roots(rows) <==> c in NodeMap(rows) && NodeMap(rows)[c].depth == 0
    ensures Distinct(Roots(rows))
  {
    KeysOfMap(rows);
    RootsInAre(NodeMap(rows), Keys(rows));
  }

  // ---- The nested forest, flattened ----

  ghost function PartArcs(parts: seq<Part>): Arcs {
    set p | p in parts && p.parent.Some? :: (p.parent.value, p.id)
  }

  ghost function Weight(parts: seq<Part>, part: nat): nat {
    |Below(PartArcs(parts), part)|
  }

  /** The map holds rows of the query over acyclic parts. */
  ghost predicate GoodRows(rows: seq<Row>, parts: seq<Part>) {
    && Acyclic(PartArcs(parts))
    && forall p :: p in NodeMap(rows) ==> Part(p, NodeMap(rows)[p].parent) in parts
  }

  lemma ChildWeighsLess(rows: seq<Row>, parts: seq<Part>, parent: nat, c: nat)
    requires GoodRows(rows, parts) && c in Children(rows, parent)
    ensures Weight(parts, c) < Weight(parts, parent)
  {
    ChildrenAre(rows, parent);
    var p := Part(c, NodeMap(rows)[c].parent);
    assert p in parts;
    assert Arc(PartArcs(parts), parent, c);
    BelowShrinks(PartArcs(parts), parent, c);
  }

  /** A node followed by everything nested below it. */
  ghost function FlattenNode(rows: seq<Row>, parts: seq<Part>, part: nat): seq<nat>
    requires GoodRows(rows, parts)
    decreases Weight(parts, part) + 1, 0
  {
    var children := Children(rows, part);
    assert forall c :: c in children ==> Weight(parts, c) < Weight(parts, part) by {
      forall c | c in children ensures Weight(parts, c) < Weight(parts, part) {
        ChildWeighsLess(rows, parts, part, c);
      }
    }
    [part] + FlattenList(rows, parts, children, Weight(parts, part))
  }

  ghost function FlattenList(rows: seq<Row>, parts: seq<Part>, nodes: seq<nat>, bound: nat): seq<nat>
    requires GoodRows(rows, parts) && forall c :: c in nodes ==> Weight(parts, c) < bound
    decreases bound, |nodes|
  {
    if nodes == [] then []
    else FlattenNode(rows, parts, nodes[0]) + FlattenList(rows, parts, nodes[1..], bound)
  }

  ghost function Forest(rows: seq<Row>, parts: seq<Part>): seq<nat>
    requires GoodRows(rows, parts)
  {
    assert forall c :: c in Roots(rows) ==> Weight(parts, c) < |Targets(PartArcs(parts))| + 1 by {
      forall c | c in Roots(rows) ensures Weight(parts, c) < |Targets(PartArcs(parts))| + 1 {
        SubsetSize(Below(PartArcs(parts), c), Targets(PartArcs(parts)));
      }
    }
    FlattenList(rows, parts, Roots(rows), |Targets(PartArcs(parts))| + 1)
  }

  /** How often a part is listed. */
  ghost function Count(s: seq<nat>, part: nat): nat {
    multiset(s)[part]
  }

  lemma CountAppend(a: seq<nat>, b: seq<nat>, part: nat)
    ensures Count(a + b, part) == Count(a, part) + Count(b, part)
  {
  }

  lemma {:induction false} CountDistinct(s: seq<nat>, part: nat)
    requires Distinct(s)
    ensures Count(s, part) == if part in s then 1 else 0
  {
    if s != [] {
      var front, last := s[..|s| - 1], s[|s| - 1];
      assert s == front + [last];
      DistinctElementIsNew(s, |s| - 1);
      CountDistinct(front, part);
    }
  }

  /** The parent of a part, when the map has it: where the part hangs in the forest. */
  ghost predicate Attached(rows: seq<Row>, part: nat) {
    && part in NodeMap(rows)
    && NodeMap(rows)[part].parent.Some?
    && NodeMap(rows)[part].parent.value in NodeMap(rows)
  }

  /** The listings of q inside a flattening that come from its parent being listed there. */
  ghost function ViaParent(rows: seq<Row>, s: seq<nat>, q: nat): nat {
    if Attached(rows, q) then Count(s, NodeMap(rows)[q].parent.value) else 0
  }

  lemma {:induction false} CountInNode(rows: seq<Row>, parts: seq<Part>, p: nat, q: nat)
    requires GoodRows(rows, parts) && p in NodeMap(rows)
    ensures Count(FlattenNode(rows, parts, p), q)
            == (if p == q then 1 else 0) + ViaParent(rows, FlattenNode(rows, parts, p), q)
    decreases Weight(parts, p) + 1, 0
  {
    hide Count;
    var children := Children(rows, p);
    forall c | c in children ensures Weight(parts, c) < Weight(parts, p) && c in NodeMap(rows) {
      ChildWeighsLess(rows, parts, p, c);
      ChildrenAre(rows, p);
    }
    var below := FlattenList(rows, parts, children, Weight(parts, p));
    CountInList(rows, parts, children, Weight(parts, p), q);
    ChildrenAre(rows, p);
    CountDistinct(children, q);
    CountAppend([p], below, q);
    CountDistinct([p], q);
    if Attached(rows, q) {
      CountAppend([p], below, NodeMap(rows)[q].parent.value);
      CountDistinct([p], NodeMap(rows)[q].parent.value);
    }
  }

  lemma {:induction false} CountInList(rows: seq<Row>, parts: seq<Part>, nodes: seq<nat>, bound: nat, q: nat)
    requires GoodRows(rows, parts)
    requires forall c :: c in nodes ==> Weight(parts, c) < bound && c in NodeMap(rows)
    ensures Count(FlattenList(rows, parts, nodes, bound), q)
            == Count(nodes, q) + ViaParent(rows, FlattenList(rows, parts, nodes, bound), q)
    decreases bound, |nodes|
  {
    hide Count;
    if nodes == [] {
      CountDistinct([], q);
      if Attached(rows, q) {
        CountDistinct([], NodeMap(rows)[q].parent.value);
      }
    } else {
      var first, rest := FlattenNode(rows, parts, nodes[0]), FlattenList(rows, parts, nodes[1..], bound);
      CountInNode(rows, parts, nodes[0], q);
      CountInList(rows, parts, nodes[1..], bound, q);
      CountAppend(first, rest, q);
      assert nodes == [nodes[0]] + nodes[1..];
      CountAppend([nodes[0]], nodes[1..], q);
      CountDistinct([nodes[0]], q);
      if Attached(rows, q) {
        CountAppend(first, rest, NodeMap(rows)[q].parent.value);
      }
    }
  }

  /** A part is listed once for being a root and once for each listing of its parent. */
  lemma CountInForest(rows: seq<Row>, parts: seq<Part>, q: nat)
    requires GoodRows(rows, parts) && q in NodeMap(rows)
    ensures Count(Forest(rows, parts), q)
            == (if NodeMap(rows)[q].depth == 0 then 1 else 0) + ViaParent(rows, Forest(rows, parts), q)
  {
    hide Count;
    RootsAre(rows);
    CountDistinct(Roots(rows), q);
    forall c | c in Roots(rows) ensures Weight(parts, c) < |Targets(PartArcs(parts))| + 1 {
      SubsetSize(Below(PartArcs(parts), c), Targets(PartArcs(parts)));
    }
    CountInList(rows, parts, Roots(rows), |Targets(PartArcs(parts))| + 1, q);
  }

  // ---- What the forest loses, duplicates and misplaces ----

  lemma ResultIsGood(rows: seq<Row>, parts: seq<Part>, items: seq<Item>)
    requires IsResult(rows, parts, items) && Acyclic(PartArcs(parts))
    ensures GoodRows(rows, parts)
    ensures forall p :: p in NodeMap(rows) && NodeMap(rows)[p].depth > 0 ==> Attached(rows, p)
  {
    KeysOfMap(rows);
    forall p | p in NodeMap(rows)
      ensures Part(p, NodeMap(rows)[p].parent) in parts
      ensures NodeMap(rows)[p].depth > 0 ==> Attached(rows, p)
    {
      var r := NodeMap(rows)[p];
      ResultRow(rows, parts, items, r);
      TableRow(parts, items, r.depth, r);
      if r.depth > 0 {
        var above := TableInResult(rows, parts, items, r.depth - 1, r.parent.value);
      }
    }
  }

  lemma ParentWeighsMore(rows: seq<Row>, parts: seq<Part>, q: nat)
    requires GoodRows(rows, parts) && Attached(rows, q)
    ensures Weight(parts, q) < Weight(parts, NodeMap(rows)[q].parent.value) <= |Targets(PartArcs(parts))|
  {
    var p := NodeMap(rows)[q].parent.value;
    ChildrenAre(rows, p);
    ChildWeighsLess(rows, parts, p, q);
    SubsetSize(Below(PartArcs(parts), p), Targets(PartArcs(parts)));
  }

  /** Nothing is lost: each part of the query result is listed, under its true parent or as a root. */
  lemma {:induction false} NothingLost(rows: seq<Row>, parts: seq<Part>, items: seq<Item>, q: nat)
    requires IsResult(rows, parts, items) && GoodRows(rows, parts) && q in NodeMap(rows)
    ensures Count(Forest(rows, parts), q) >= 1
    decreases |Targets(PartArcs(parts))| - Weight(parts, q)
  {
    ResultIsGood(rows, parts, items);
    CountInForest(rows, parts, q);
    if NodeMap(rows)[q].depth > 0 {
      ParentWeighsMore(rows, parts, q);
      NothingLost(rows, parts, items, NodeMap(rows)[q].parent.value);
    }
  }

  /** A root whose parent is in the map as well hangs in two places. */
  ghost predicate Twice(rows: seq<Row>, q: nat) {
    q in NodeMap(rows) && NodeMap(rows)[q].depth == 0 && Attached(rows, q)
  }

  lemma {:induction false} OnceWithoutTwice(rows: seq<Row>, parts: seq<Part>, items: seq<Item>, q: nat)
    requires IsResult(rows, parts, items) && GoodRows(rows, parts) && q in NodeMap(rows)
    requires forall p :: !Twice(rows, p)
    ensures Count(Forest(rows, parts), q) == 1
    decreases |Targets(PartArcs(parts))| - Weight(parts, q)
  {
    ResultIsGood(rows, parts, items);
    CountInForest(rows, parts, q);
    assert !Twice(rows, q);
    if NodeMap(rows)[q].depth > 0 {
      ParentWeighsMore(rows, parts, q);
      OnceWithoutTwice(rows, parts, items, NodeMap(rows)[q].parent.value);
    }
  }

  /** An anchor of the query whose parent the query reaches at the depth cap and nowhere above it. */
  ghost predicate CutAtCap(parts: seq<Part>, items: seq<Item>, q: Part) {
    && q in parts && q.parent.Some?
    && HasRow(parts, items, 0, q.id)
    && HasRow(parts, items, DEPTH_CAP, q.parent.value)
    && forall k: nat :: k < DEPTH_CAP ==> !HasRow(parts, items, k, q.parent.value)
  }

  lemma RowDepth(rows: seq<Row>, parts: seq<Part>, items: seq<Item>, q: nat) returns (k: nat)
    requires IsResult(rows, parts, items) && q in NodeMap(rows)
    ensures k == NodeMap(rows)[q].depth <= DEPTH_CAP && HasRow(parts, items, k, q)
    ensures forall j: nat :: HasRow(parts, items, j, q) ==> j <= k
  {
    KeysOfMap(rows);
    k := NodeMap(rows)[q].depth;
    ResultRow(rows, parts, items, NodeMap(rows)[q]);
    forall j: nat | HasRow(parts, items, j, q) ensures j <= k {
      var r := TableInResult(rows, parts, items, j, q);
      SurvivorIsDeepest(rows, r);
    }
  }

  lemma TwiceIffCut(rows: seq<Row>, parts: seq<Part>, items: seq<Item>, q: nat)
    requires IsResult(rows, parts, items) && KeyUnique(parts) && Acyclic(PartArcs(parts))
    ensures Twice(rows, q) <==> exists p :: CutAtCap(parts, items, p) && p.id == q
  {
    ResultIsGood(rows, parts, items);
    if Twice(rows, q) {
      var p := Part(q, NodeMap(rows)[q].parent);
      var zero := RowDepth(rows, parts, items, q);
      var d := RowDepth(rows, parts, items, p.parent.value);
      forall k: nat | k < DEPTH_CAP ensures !HasRow(parts, items, k, p.parent.value) {
        if HasRow(parts, items, k, p.parent.value) {
          ChildHasRow(parts, items, k, p);
        }
      }
      assert CutAtCap(parts, items, p);
    }
    if p :| CutAtCap(parts, items, p) && p.id == q {
      CutIsTwice(rows, parts, items, p);
    }
  }

  lemma CutIsTwice(rows: seq<Row>, parts: seq<Part>, items: seq<Item>, p: Part)
    requires IsResult(rows, parts, items) && KeyUnique(parts) && CutAtCap(parts, items, p)
    ensures Twice(rows, p.id)
  {
    KeysOfMap(rows);
    var own := TableInResult(rows, parts, items, 0, p.id);
    var above := TableInResult(rows, parts, items, DEPTH_CAP, p.parent.value);
    var r := NodeMap(rows)[p.id];
    ResultRow(rows, parts, items, r);
    TableRow(parts, items, r.depth, r);
    assert Part(r.part, r.parent) == p;
  }

  /**
   Flattening the nested result gives back every part of the query exactly once, if and only if no
   anchor hangs below a part that the query reaches at the depth cap only. Overlapping anchors and
   overwritten map entries do no harm.
   */
  lemma EachPartOnceIff(rows: seq<Row>, parts: seq<Part>, items: seq<Item>)
    requires IsResult(rows, parts, items) && KeyUnique(parts) && Acyclic(PartArcs(parts))
    ensures GoodRows(rows, parts)
    ensures (forall q :: q in NodeMap(rows) ==> Count(Forest(rows, parts), q) == 1)
            <==> forall p :: !CutAtCap(parts, items, p)
  {
    hide Count;
    ResultIsGood(rows, parts, items);
    if forall p :: !CutAtCap(parts, items, p) {
      forall q ensures !Twice(rows, q) {
        TwiceIffCut(rows, parts, items, q);
      }
      forall q | q in NodeMap(rows) ensures Count(Forest(rows, parts), q) == 1 {
        OnceWithoutTwice(rows, parts, items, q);
      }
    } else {
      var p :| CutAtCap(parts, items, p);
      TwiceIffCut(rows, parts, items, p.id);
      CountInForest(rows, parts, p.id);
      NothingLost(rows, parts, items, p.parent.value);
      CutIsTwice(rows, parts, items, p);
      SameParent(rows, parts, p);
    }
  }

  lemma SameParent(rows: seq<Row>, parts: seq<Part>, p: Part)
    requires GoodRows(rows, parts) && KeyUnique(parts) && p in parts && p.id in NodeMap(rows)
    ensures NodeMap(rows)[p.id].parent == p.parent
  {
    assert Part(p.id, NodeMap(rows)[p.id].parent) in parts;
  }

  // ---- Which parts the tree shows ----

  ghost predicate InBom(items: seq<Item>, p: Part) {
    exists i :: i in items && i.part == p.id
  }

  /** Where the tree starts: at a part of the BOM whose parent is no part of the BOM with a parent of its
      own; or at any part of the BOM, when none of them has a parent. */
  ghost predicate Starts(parts: seq<Part>, items: seq<Item>, p: Part) {
    && p in parts && InBom(items, p)
    && ((forall q :: q in parts && InBom(items, q) ==> q.parent.None?)
        || (p.parent.Some? && forall q :: q in parts && InBom(items, q) && q.parent.Some? ==> q.id != p.parent.value))
  }

  /** A starting part followed by children of children, in the BOM or not. */
  ghost predicate IsChain(parts: seq<Part>, items: seq<Item>, chain: seq<Part>) {
    && |chain| >= 1 && Starts(parts, items, chain[0])
    && (forall k :: 0 <= k < |chain| ==> chain[k] in parts)
    && (forall j, k {:trigger chain[j], chain[k]} :: 0 <= j && k == j + 1 && k < |chain| ==>
          chain[k].parent == Some(chain[j].id))
  }

  ghost predicate ChainTo(parts: seq<Part>, items: seq<Item>, chain: seq<Part>, part: nat, round: nat) {
    IsChain(parts, items, chain) && |chain| == round + 1 && chain[round].id == part
  }

  lemma StartsIff(parts: seq<Part>, items: seq<Item>, p: Part)
    ensures Starts(parts, items, p) <==> p in parts && InBom(items, p) && IsAnchor(parts, items, p)
  {
    var s := WithParent(parts, items);
    forall q | q in parts && InBom(items, q) && q.parent.Some? ensures q.id in s {
      var i :| i in items && i.part == q.id;
    }
  }

  lemma StartHasRow(parts: seq<Part>, items: seq<Item>, part: nat)
    ensures HasRow(parts, items, 0, part) <==> exists chain :: ChainTo(parts, items, chain, part, 0)
  {
    hide IsAnchor, Starts, Anchor;
    if HasRow(parts, items, 0, part) {
      var y :| y in Table(parts, items, 0) && y.part == part;
      InAnchor(parts, items, items, y);
      var i, p :| i in items && p in parts && p.id == i.part && IsAnchor(parts, items, p)
                  && y == Row(p.id, p.parent, 0, Some(i.quantity));
      StartsIff(parts, items, p);
      assert ChainTo(parts, items, [p], part, 0);
    }
    if chain :| ChainTo(parts, items, chain, part, 0) {
      var p := chain[0];
      StartsIff(parts, items, p);
      var i :| i in items && i.part == p.id;
      var y := Row(p.id, p.parent, 0, Some(i.quantity));
      InAnchor(parts, items, items, y);
      assert y in Table(parts, items, 0);
    }
  }

  lemma {:induction false} RowIsChain(parts: seq<Part>, items: seq<Item>, round: nat, part: nat)
    ensures HasRow(parts, items, round, part)
            <==> round <= 5 && exists chain :: ChainTo(parts, items, chain, part, round)
    decreases round
  {
    hide Starts, Table, HasRow;
    if round == 0 {
      StartHasRow(parts, items, part);
    } else {
      if HasRow(parts, items, round, part) {
        var p := RowHasParent(parts, items, round, part);
        RowIsChain(parts, items, round - 1, p.parent.value);
        var chain :| ChainTo(parts, items, chain, p.parent.value, round - 1);
        assert ChainTo(parts, items, chain + [p], part, round);
      }
      if round <= 5 && exists chain :: ChainTo(parts, items, chain, part, round) {
        var chain :| ChainTo(parts, items, chain, part, round);
        var p: Part, above: Part := chain[round], chain[round - 1];
        assert p.parent == Some(above.id);
        assert ChainTo(parts, items, chain[..round], above.id, round - 1);
        RowIsChain(parts, items, round - 1, above.id);
        ChildHasRow(parts, items, round - 1, p);
      }
    }
  }

  lemma RowHasParent(parts: seq<Part>, items: seq<Item>, round: nat, part: nat) returns (p: Part)
    requires round > 0 && HasRow(parts, items, round, part)
    ensures round <= 5 && p in parts && p.id == part && p.parent.Some?
    ensures HasRow(parts, items, round - 1, p.parent.value)
  {
    hide Table;
    var y :| y in Table(parts, items, round) && y.part == part;
    TableRow(parts, items, round, y);
    p := Part(y.part, y.parent);
  }

  /**
   The tree shows exactly the parts at the end of a chain of at most six parts that begins at a starting
   part; a part sits at the depth of its longest such chain, below its true parent; and a quantity it
   shows is one of its own in the BOM.
   */
  lemma TreeIsExact(rows: seq<Row>, parts: seq<Part>, items: seq<Item>, q: nat)
    requires IsResult(rows, parts, items)
    ensures q in NodeMap(rows) <==> exists k: nat, chain :: k <= 5 && ChainTo(parts, items, chain, q, k)
    ensures q in NodeMap(rows) ==>
              var node := NodeMap(rows)[q];
              && Part(q, node.parent) in parts
              && (exists chain :: ChainTo(parts, items, chain, q, node.depth))
              && (forall k: nat, chain :: k <= 5 && ChainTo(parts, items, chain, q, k) ==> k <= node.depth)
              && (node.quantity.Some? ==> Item(q, node.quantity.value) in items)
  {
    hide ChainTo, Table, NodeMap, IsResult;
    KeysOfMap(rows);
    forall k: nat, chain | k <= 5 && ChainTo(parts, items, chain, q, k)
      ensures q in NodeMap(rows) && k <= NodeMap(rows)[q].depth
    {
      RowIsChain(parts, items, k, q);
      var r := TableInResult(rows, parts, items, k, q);
      var d := RowDepth(rows, parts, items, q);
    }
    if q in NodeMap(rows) {
      var d := RowDepth(rows, parts, items, q);
      RowIsChain(parts, items, d, q);
      NodeColumns(rows, parts, items, q);
    }
  }

  lemma NodeColumns(rows: seq<Row>, parts: seq<Part>, items: seq<Item>, q: nat)
    requires IsResult(rows, parts, items) && q in NodeMap(rows)
    ensures Part(q, NodeMap(rows)[q].parent) in parts
    ensures NodeMap(rows)[q].quantity.Some? ==> Item(q, NodeMap(rows)[q].quantity.value) in items
  {
    KeysOfMap(rows);
    var node := NodeMap(rows)[q];
    ResultRow(rows, parts, items, node);
    TableRow(parts, items, node.depth, node);
    if node.depth == 0 {
      InAnchor(parts, items, items, node);
    }
  }

  /** A top part of the BOM (one without a parent) is in the result if and only if no part of the BOM
      has a parent: NULL NOT IN a non-empty list is never true, and nothing above leads to it. */
  lemma TopPartShownIff(rows: seq<Row>, parts: seq<Part>, items: seq<Item>, p: Part, i: Item)
    requires IsResult(rows, parts, items) && KeyUnique(parts)
    requires p in parts && p.parent.None? && i in items && i.part == p.id
    ensures p.id in NodeMap(rows) <==> WithParent(parts, items) == {}
  {
    KeysOfMap(rows);
    if p.id in NodeMap(rows) {
      var r := NodeMap(rows)[p.id];
      ResultRow(rows, parts, items, r);
      TableRow(parts, items, r.depth, r);
      assert Part(r.part, r.parent) == p;
      InAnchor(parts, items, items, r);
    }
    if WithParent(parts, items) == {} {
      var y := Row(p.id, p.parent, 0, Some(i.quantity));
      InAnchor(parts, items, items, y);
      assert y in Table(parts, items, 0);
      var r := TableInResult(rows, parts, items, 0, p.id);
    }
  }

  /** Quantities survive only on roots: an item that hangs below another part shows none. */
  lemma QuantityOnRootsOnly(rows: seq<Row>, parts: seq<Part>, items: seq<Item>, q: nat)
    requires IsResult(rows, parts, items) && q in NodeMap(rows)
    ensures NodeMap(rows)[q].quantity.Some? <==> q in Roots(rows)
  {
    KeysOfMap(rows);
    RootsAre(rows);
    ResultRow(rows, parts, items, NodeMap(rows)[q]);
    TableRow(parts, items, NodeMap(rows)[q].depth, NodeMap(rows)[q]);
  }

  /** A result with rows has a root, so the response is never empty for an acyclic part table. */
  lemma RootsExist(rows: seq<Row>, parts: seq<Part>, items: seq<Item>)
    requires IsResult(rows, parts, items) && Acyclic(PartArcs(parts)) && rows != []
    ensures Roots(rows) != []
  {
    KeysOfMap(rows);
    ResultIsGood(rows, parts, items);
    assert rows[0].part in NodeMap(rows);
    NothingLost(rows, parts, items, rows[0].part);
  }

  // ---- A part listed twice ----

  /** A chain of parts 0 to 6 below part 9, of which the BOM holds 0 and 6. */
  function LongChain(): seq<Part> {
    [Part(9, None), Part(0, Some(9)), Part(1, Some(0)), Part(2, Some(1)), Part(3, Some(2)),
     Part(4, Some(3)), Part(5, Some(4)), Part(6, Some(5))]
  }

  function ChainItems(): seq<Item> {
    [Item(0, 1.0), Item(6, 1.0)]
  }

  lemma ChainFacts()
    ensures forall p :: p in LongChain()
              <==> p == Part(9, None) || (p.id <= 6 && p.parent == Some(if p.id == 0 then 9 else p.id - 1))
    ensures forall i :: i in ChainItems() <==> i == Item(0, 1.0) || i == Item(6, 1.0)
  {
    var parts := LongChain();
    assert parts[0] == Part(9, None) && parts[1] == Part(0, Some(9)) && parts[2] == Part(1, Some(0));
    assert parts[3] == Part(2, Some(1)) && parts[4] == Part(3, Some(2)) && parts[5] == Part(4, Some(3));
    assert parts[6] == Part(5, Some(4)) && parts[7] == Part(6, Some(5));
    assert ChainItems()[0] == Item(0, 1.0) && ChainItems()[1] == Item(6, 1.0);
  }

  lemma ChainAnchor(p: Part, i: Item)
    requires p in LongChain() && i in ChainItems() && p.id == i.part
    ensures HasRow(LongChain(), ChainItems(), 0, p.id)
  {
    hide LongChain, ChainItems, Anchor;
    ChainFacts();
    var parts, items := LongChain(), ChainItems();
    var y := Row(p.id, p.parent, 0, Some(i.quantity));
    assert 9 !in WithParent(parts, items) && 5 !in WithParent(parts, items);
    InAnchor(parts, items, items, y);
    assert y in Table(parts, items, 0);
  }

  lemma {:induction false} ChainDepth(i: nat)
    requires i <= 5
    ensures HasRow(LongChain(), ChainItems(), i, i)
  {
    hide LongChain, ChainItems, HasRow;
    ChainFacts();
    if i == 0 {
      ChainAnchor(Part(0, Some(9)), Item(0, 1.0));
    } else {
      ChainDepth(i - 1);
      ChildHasRow(LongChain(), ChainItems(), i - 1, Part(i, Some(i - 1)));
    }
  }

  lemma {:induction false} ChainOnlyThere(i: nat, k: nat)
    requires 1 <= i <= 5 && HasRow(LongChain(), ChainItems(), k, i)
    ensures k >= i
  {
    hide LongChain, ChainItems, Anchor, Expand;
    ChainFacts();
    var parts, items := LongChain(), ChainItems();
    var y :| y in Table(parts, items, k) && y.part == i;
    TableRow(parts, items, k, y);
    if k == 0 {
      InAnchor(parts, items, items, y);
    } else if i > 1 {
      ChainOnlyThere(i - 1, k - 1);
    }
  }

  /** Part 6 is an anchor (its parent 5 is not in the BOM), and part 5 is reached at depth 5 only. */
  lemma ChainIsCut()
    ensures CutAtCap(LongChain(), ChainItems(), Part(6, Some(5)))
  {
    hide LongChain, ChainItems, HasRow;
    ChainFacts();
    ChainAnchor(Part(6, Some(5)), Item(6, 1.0));
    ChainDepth(5);
    forall k: nat | k < DEPTH_CAP ensures !HasRow(LongChain(), ChainItems(), k, 5) {
      if HasRow(LongChain(), ChainItems(), k, 5) {
        ChainOnlyThere(5, k);
      }
    }
  }

  // ---- The linking loops ----

  /** A node dict: its scalar columns and its children list. */
  class TreeNode {
    const row: Row
    var children: seq<TreeNode>

    constructor (row: Row)
      ensures this.row == row && children == []
    {
      this.row := row;
      children := [];
    }
  }

  function Resolve(nodes: map<nat, TreeNode>, parts: seq<nat>): seq<TreeNode> {
    if parts == [] then []
    else
      var last := parts[|parts| - 1];
      Resolve(nodes, parts[..|parts| - 1]) + (if last in nodes then [nodes[last]] else [])
  }

  /** One node per part of the map, each with its row, no two parts sharing a node. */
  ghost predicate NodesFor(nodes: map<nat, TreeNode>, m: map<nat, Row>) {
    && nodes.Keys == m.Keys
    && (forall p :: p in nodes ==> nodes[p].row == m[p])
    && forall p, q :: p in nodes && q in nodes && p != q ==> nodes[p] != nodes[q]
  }

  /** First loop: one node per row, later rows replacing earlier nodes. */
  method BuildNodes(rows: seq<Row>) returns (nodes: map<nat, TreeNode>, order: seq<nat>)
    ensures order == Keys(rows) && NodesFor(nodes, NodeMap(rows))
    ensures forall p :: p in nodes ==> fresh(nodes[p]) && nodes[p].children == []
  {
    nodes, order := map[], [];
    var i := 0;
    while i < |rows|
      invariant i <= |rows| && order == Keys(rows[..i]) && NodesFor(nodes, NodeMap(rows[..i]))
      invariant forall p :: p in nodes ==> fresh(nodes[p]) && nodes[p].children == []
    {
      KeysOfMap(rows[..i]);
      assert rows[..i + 1][..i] == rows[..i];
      var node := new TreeNode(rows[i]);
      if rows[i].part !in nodes {
        order := order + [rows[i].part];
      }
      nodes := nodes[rows[i].part := node];
      i := i + 1;
    }
    assert rows[..i] == rows;
  }

  lemma LinkStep(nodes: map<nat, TreeNode>, m: map<nat, Row>, order: seq<nat>, i: nat, p: nat)
    requires (forall q :: q in order ==> q in m && q in nodes) && i < |order|
    ensures Resolve(nodes, ChildrenIn(m, order[..i + 1], p))
            == Resolve(nodes, ChildrenIn(m, order[..i], p))
               + (if m[order[i]].parent == Some(p) then [nodes[order[i]]] else [])
  {
    assert order[..i + 1][..i] == order[..i];
    var before := ChildrenIn(m, order[..i], p);
    assert (before + [order[i]])[..|before|] == before;
    assert before + [] == before;
  }

  lemma NothingYet(nodes: map<nat, TreeNode>, m: map<nat, Row>)
    ensures forall p: nat :: Resolve(nodes, ChildrenIn(m, [], p)) == []
  {
  }

  lemma RootStep(nodes: map<nat, TreeNode>, m: map<nat, Row>, order: seq<nat>, i: nat)
    requires (forall q :: q in order ==> q in m && q in nodes) && i < |order|
    ensures Resolve(nodes, RootsIn(m, order[..i + 1]))
            == Resolve(nodes, RootsIn(m, order[..i])) + (if m[order[i]].depth == 0 then [nodes[order[i]]] else [])
  {
    assert order[..i + 1][..i] == order[..i];
    var before := RootsIn(m, order[..i]);
    assert (before + [order[i]])[..|before|] == before;
    assert before + [] == before;
  }

  /** Second loop: append each node to the children of its parent, when the parent is in the map. */
  method LinkChildren(nodes: map<nat, TreeNode>, order: seq<nat>, ghost m: map<nat, Row>)
    requires NodesFor(nodes, m) && forall q :: q in order ==> q in m
    requires forall p :: p in nodes ==> nodes[p].children == []
    modifies nodes.Values
    ensures forall p :: p in nodes ==> nodes[p].children == Resolve(nodes, ChildrenIn(m, order, p))
  {
    hide ChildrenIn, Resolve;
    NothingYet(nodes, m);
    var i := 0;
    while i < |order|
      invariant i <= |order|
      invariant forall p :: p in nodes ==> nodes[p].children == Resolve(nodes, ChildrenIn(m, order[..i], p))
    {
      var node := nodes[order[i]];
      forall p: nat
        ensures Resolve(nodes, ChildrenIn(m, order[..i + 1], p))
                == Resolve(nodes, ChildrenIn(m, order[..i], p))
                          + (if node.row.parent == Some(p) then [node] else [])
      {
        LinkStep(nodes, m, order, i, p);
      }
      if node.row.parent.Some? && node.row.parent.value in nodes {
        var above := nodes[node.row.parent.value];
        above.children := above.children + [node];
      }
      i := i + 1;
    }
    assert order[..i] == order;
  }

  /** Third loop: the nodes at depth 0, in dict order. */
  method CollectRoots(nodes: map<nat, TreeNode>, order: seq<nat>, ghost m: map<nat, Row>) returns (roots: seq<TreeNode>)
    requires NodesFor(nodes, m) && forall q :: q in order ==> q in m
    ensures roots == Resolve(nodes, RootsIn(m, order))
  {
    roots := [];
    var i := 0;
    while i < |order|
      invariant i <= |order| && roots == Resolve(nodes, RootsIn(m, order[..i]))
    {
      RootStep(nodes, m, order, i);
      if nodes[order[i]].row.depth == 0 {
        roots := roots + [nodes[order[i]]];
      }
      i := i + 1;
    }
    assert order[..i] == order;
  }

  /** The assembly of get_bom_tree: new nodes, linked as Children says, and the depth-0 nodes as roots. */
  method Assemble(rows: seq<Row>) returns (nodes: map<nat, TreeNode>, roots: seq<TreeNode>)
    ensures NodesFor(nodes, NodeMap(rows)) && forall p :: p in nodes ==> fresh(nodes[p])
    ensures forall p :: p in nodes ==> nodes[p].children == Resolve(nodes, Children(rows, p))
    ensures roots == Resolve(nodes, Roots(rows))
  {
    var order;
    nodes, order := BuildNodes(rows);
    KeysOfMap(rows);
    LinkChildren(nodes, order, NodeMap(rows));
    roots := CollectRoots(nodes, order, NodeMap(rows));
  }
}
