/**
 The contribution rollup: shares are multiplied along the layered join, one row per factory share.
 Ratios are reals; the two checks of the validation query and the rounding of the report are here too.
 */
module Contribution {
  import opened Common
  import opened Digraph
  import opened RecursiveQuery
  import opened SupplyEdges
  import TierTraversal

  /** A row of supply_ratio. Both columns may be NULL. */
  datatype Share = Share(factory: Option<nat>, percent: Option<real>)

  /** The supply_ratio rows of each edge, by edge id. */
  type Shares = map<nat, seq<Share>>

  predicate Rated(shares: Shares, e: Edge) {
    e.id in shares && shares[e.id] != []
  }

  /** LEFT JOIN supply_ratio: an edge without rows keeps one row of NULLs. */
  function JoinedShares(shares: Shares, e: Edge): seq<Share> {
    if Rated(shares, e) then shares[e.id] else [Share(None, None)]
  }

  /** COALESCE(ratio_percentage / 100.0, 1.0). */
  function Factor(s: Share): real {
    if s.percent.Some? then s.percent.value / 100.0 else 1.0
  }

  /** Multiplication by name, so that the structural proofs below can keep it hidden. */
  function Times(a: real, b: real): real {
    a * b
  }

  datatype Row = Row(edge: Edge, share: Share, cum: real, path: seq<(nat, nat)>, isCycle: bool)

  /** One row per share of an edge, all continuing the same cumulative ratio. */
  function Fork(e: Edge, forks: seq<Share>, cum: real, path: seq<(nat, nat)>, isCycle: bool): seq<Row> {
    if forks == [] then []
    else [Row(e, forks[0], Times(cum, Factor(forks[0])), path, isCycle)] + Fork(e, forks[1..], cum, path, isCycle)
  }

  function Anchor(edges: seq<Edge>, boms: set<nat>, shares: Shares): seq<Row> {
    if edges == [] then []
    else
      (if IsRootOf(edges[0], boms)
       then Fork(edges[0], JoinedShares(shares, edges[0]), 1.0, [Key(edges[0])], false)
       else [])
      + Anchor(edges[1..], boms, shares)
  }

  /** The child rows of r on edge e. */
  function ChildRows(shares: Shares, r: Row, e: Edge): seq<Row> {
    if !r.isCycle && Follows(e, r.edge)
    then Fork(e, JoinedShares(shares, e), r.cum, r.path + [Key(e)], Key(e) in r.path)
    else []
  }

  function Expand(edges: seq<Edge>, shares: Shares, r: Row): seq<Row> {
    if edges == [] then [] else ChildRows(shares, r, edges[0]) + Expand(edges[1..], shares, r)
  }

  function Step(edges: seq<Edge>, shares: Shares): Row -> seq<Row> {
    r => Expand(edges, shares, r)
  }

  function Table(edges: seq<Edge>, boms: set<nat>, shares: Shares, round: nat): seq<Row> {
    WorkTable(Anchor(edges, boms, shares), Step(edges, shares), round)
  }

  /** All rows of the recursion, cut rows included. */
  function Rows(edges: seq<Edge>, boms: set<nat>, shares: Shares): seq<Row> {
    Accumulated(Anchor(edges, boms, shares), Step(edges, shares), MaxHop(edges) + 1)
  }

  // ---- What a single row carries ----

  /** The row without its share and ratio, as a row of the n-tier tree. */
  function Plain(r: Row, depth: nat): TierTraversal.TierRow {
    TierTraversal.TierRow(r.edge, depth, r.path, r.isCycle)
  }

  /** For each edge of the trail, one of its supply_ratio rows; blank where it has none. */
  ghost predicate Chosen(shares: Shares, trail: seq<Edge>, choice: seq<Share>) {
    && |choice| == |trail|
    && forall i :: 0 <= i < |trail| ==>
         if trail[i].id in shares && shares[trail[i].id] != [] then choice[i] in shares[trail[i].id]
         else choice[i] == Share(None, None)
  }

  /** The product of the chosen ratios, a NULL ratio counting as the whole. */
  function Product(choice: seq<Share>): real {
    if choice == [] then 1.0
    else
      var last := choice[|choice| - 1].percent;
      Product(choice[..|choice| - 1]) * (match last case None => 1.0 case Some(percent) => percent / 100.0)
  }

  /** The row that follows the trail and takes the given share of each edge. */
  ghost predicate FromChoice(
      edges: seq<Edge>, boms: set<nat>, shares: Shares, y: Row, trail: seq<Edge>, choice: seq<Share>) {
    && TierTraversal.IsLiveTrail(edges, boms, trail)
    && Chosen(shares, trail, choice)
    && Plain(y, |trail| - 1) == TierTraversal.RowOf(trail)
    && y.share == choice[|choice| - 1]
    && y.cum == Product(choice)
  }

  lemma {:induction false} OneRowPerShare(e: Edge, forks: seq<Share>, cum: real, path: seq<(nat, nat)>, isCycle: bool)
    ensures |Fork(e, forks, cum, path, isCycle)| == |forks|
    ensures forall i :: 0 <= i < |forks| ==>
              Fork(e, forks, cum, path, isCycle)[i] == Row(e, forks[i], Times(cum, Factor(forks[i])), path, isCycle)
  {
    hide Times, Factor;
    if forks != [] {
      OneRowPerShare(e, forks[1..], cum, path, isCycle);
    }
  }

  lemma InFork(e: Edge, forks: seq<Share>, cum: real, path: seq<(nat, nat)>, isCycle: bool, y: Row)
    ensures y in Fork(e, forks, cum, path, isCycle)
            <==> y.share in forks && y == Row(e, y.share, Times(cum, Factor(y.share)), path, isCycle)
  {
    hide Times, Factor, Fork;
    OneRowPerShare(e, forks, cum, path, isCycle);
    if y.share in forks {
      var i :| 0 <= i < |forks| && forks[i] == y.share;
      assert Fork(e, forks, cum, path, isCycle)[i].share == y.share;
    }
  }

  lemma {:induction false} InAnchor(edges: seq<Edge>, boms: set<nat>, shares: Shares, y: Row)
    ensures y in Anchor(edges, boms, shares)
            <==> && y.edge in edges && IsRootOf(y.edge, boms) && y.share in JoinedShares(shares, y.edge)
                 && y == Row(y.edge, y.share, Times(1.0, Factor(y.share)), [Key(y.edge)], false)
  {
    hide Times, Factor, Fork, JoinedShares;
    if edges != [] {
      InAnchor(edges[1..], boms, shares, y);
      InFork(edges[0], JoinedShares(shares, edges[0]), 1.0, [Key(edges[0])], false, y);
      assert y.edge in edges <==> y.edge == edges[0] || y.edge in edges[1..];
    }
  }

  /** y continues r on an edge one hop further down, with one of that edge's shares. */
  predicate Continues(edges: seq<Edge>, shares: Shares, r: Row, y: Row) {
    && y.edge in edges && !r.isCycle && Follows(y.edge, r.edge) && y.share in JoinedShares(shares, y.edge)
    && y == Row(y.edge, y.share, Times(r.cum, Factor(y.share)), r.path + [Key(y.edge)], Key(y.edge) in r.path)
  }

  lemma {:induction false} InExpand(edges: seq<Edge>, shares: Shares, r: Row, y: Row)
    ensures y in Expand(edges, shares, r) <==> Continues(edges, shares, r, y)
  {
    hide Times, Factor, Fork, JoinedShares;
    if edges != [] {
      var e := edges[0];
      InExpand(edges[1..], shares, r, y);
      InFork(e, JoinedShares(shares, e), r.cum, r.path + [Key(e)], Key(e) in r.path, y);
      assert y.edge in edges <==> y.edge == e || y.edge in edges[1..];
    }
  }

  lemma ProductStep(choice: seq<Share>, s: Share)
    ensures Product([]) == 1.0
    ensures Product(choice + [s]) == Times(Product(choice), Factor(s))
  {
    assert (choice + [s])[..|choice|] == choice;
  }

  lemma AnchorIsChoices(edges: seq<Edge>, boms: set<nat>, shares: Shares, y: Row)
    ensures y in Anchor(edges, boms, shares)
            <==> exists trail, choice :: FromChoice(edges, boms, shares, y, trail, choice) && |trail| == 1
  {
    hide Times, Factor, Product, Anchor;
    InAnchor(edges, boms, shares, y);
    ProductStep([], y.share);
    assert [] + [y.share] == [y.share];
    if y in Anchor(edges, boms, shares) {
      assert FromChoice(edges, boms, shares, y, [y.edge], [y.share]);
    }
    if trail, choice :| FromChoice(edges, boms, shares, y, trail, choice) && |trail| == 1 {
      assert choice == [y.share];
      assert TierTraversal.Roles(trail) == [Key(y.edge)];
    }
  }

  lemma ExtendChoice(edges: seq<Edge>, boms: set<nat>, shares: Shares, r: Row, y: Row, trail: seq<Edge>,
                     choice: seq<Share>)
    requires FromChoice(edges, boms, shares, r, trail, choice) && Continues(edges, shares, r, y)
    ensures FromChoice(edges, boms, shares, y, trail + [y.edge], choice + [y.share])
  {
    hide TierTraversal.Returns, Times, Factor, Product;
    TierTraversal.AddEdge(trail, y.edge);
    ProductStep(choice, y.share);
  }

  lemma ShortenChoice(edges: seq<Edge>, boms: set<nat>, shares: Shares, y: Row, trail: seq<Edge>,
                      choice: seq<Share>) returns (r: Row, front: seq<Edge>, chosen: seq<Share>)
    requires FromChoice(edges, boms, shares, y, trail, choice) && |trail| >= 2
    ensures FromChoice(edges, boms, shares, r, front, chosen) && |front| == |trail| - 1
    ensures Continues(edges, shares, r, y)
  {
    hide TierTraversal.Returns, Times, Factor, Product;
    var n := |trail| - 1;
    front, chosen := trail[..n], choice[..n];
    var plain := TierTraversal.RowOf(front);
    r := Row(plain.edge, chosen[n - 1], Product(chosen), plain.path, plain.isCycle);
    assert trail == front + [y.edge] && choice == chosen + [y.share];
    TierTraversal.AddEdge(front, y.edge);
    ProductStep(chosen, y.share);
  }

  lemma RowAbove(edges: seq<Edge>, boms: set<nat>, shares: Shares, round: nat, y: Row) returns (r: Row)
    requires round > 0 && y in Table(edges, boms, shares, round)
    ensures r in Table(edges, boms, shares, round - 1) && y in Expand(edges, shares, r)
  {
    var prior := Table(edges, boms, shares, round - 1);
    InNext(Step(edges, shares), prior, y);
    r :| r in prior && y in Step(edges, shares)(r);
  }

  lemma RowBelow(edges: seq<Edge>, boms: set<nat>, shares: Shares, round: nat, r: Row, y: Row)
    requires round > 0 && r in Table(edges, boms, shares, round - 1) && Continues(edges, shares, r, y)
    ensures y in Table(edges, boms, shares, round)
  {
    InExpand(edges, shares, r, y);
    assert y in Step(edges, shares)(r);
    InNext(Step(edges, shares), Table(edges, boms, shares, round - 1), y);
  }

  /**
   Round k of the rollup holds, for each live trail of k + 1 edges and each choice of one share per edge,
   the row with the last edge, the last share, and the product of the chosen ratios; and no other row.
   */
  lemma {:induction false} TableIsChoices(edges: seq<Edge>, boms: set<nat>, shares: Shares, round: nat, y: Row)
    ensures y in Table(edges, boms, shares, round)
            <==> exists trail, choice :: FromChoice(edges, boms, shares, y, trail, choice) && |trail| == round + 1
    decreases round
  {
    hide Expand, FromChoice, Continues;
    if round == 0 {
      AnchorIsChoices(edges, boms, shares, y);
    } else {
      if y in Table(edges, boms, shares, round) {
        var r := RowAbove(edges, boms, shares, round, y);
        InExpand(edges, shares, r, y);
        TableIsChoices(edges, boms, shares, round - 1, r);
        var trail, choice :| FromChoice(edges, boms, shares, r, trail, choice) && |trail| == round;
        ExtendChoice(edges, boms, shares, r, y, trail, choice);
        assert |trail + [y.edge]| == round + 1;
      }
      if trail, choice :| FromChoice(edges, boms, shares, y, trail, choice) && |trail| == round + 1 {
        var r, front, chosen := ShortenChoice(edges, boms, shares, y, trail, choice);
        TableIsChoices(edges, boms, shares, round - 1, r);
        RowBelow(edges, boms, shares, round, r, y);
      }
    }
  }

  // ---- The rollup follows the n-tier tree ----

  lemma {:induction false} SomeChoice(shares: Shares, trail: seq<Edge>) returns (choice: seq<Share>)
    ensures Chosen(shares, trail, choice)
  {
    if trail == [] {
      choice := [];
    } else {
      var n := |trail| - 1;
      choice := SomeChoice(shares, trail[..n]);
      choice := choice + [JoinedShares(shares, trail[n])[0]];
    }
  }

  /** Without shares and ratios, the rollup has the same rows in each round as the n-tier tree. */
  lemma RollupFollowsTree(edges: seq<Edge>, boms: set<nat>, shares: Shares, round: nat, t: TierTraversal.TierRow)
    ensures t in TierTraversal.Table(edges, boms, round)
            <==> exists y :: y in Table(edges, boms, shares, round) && Plain(y, round) == t
  {
    hide TierTraversal.RowOf, TierTraversal.IsLiveTrail, Chosen, Product;
    TierTraversal.TableIsTrails(edges, boms, round, t);
    if y :| y in Table(edges, boms, shares, round) && Plain(y, round) == t {
      TableIsChoices(edges, boms, shares, round, y);
      var trail, choice :| FromChoice(edges, boms, shares, y, trail, choice) && |trail| == round + 1;
      assert TierTraversal.FromTrail(edges, boms, round, t, trail);
    }
    if trail :| TierTraversal.FromTrail(edges, boms, round, t, trail) {
      var choice := SomeChoice(shares, trail);
      var y := RowWith(edges, boms, shares, trail, choice);
    }
  }

  lemma RowWith(edges: seq<Edge>, boms: set<nat>, shares: Shares, trail: seq<Edge>, choice: seq<Share>)
      returns (y: Row)
    requires TierTraversal.IsLiveTrail(edges, boms, trail) && Chosen(shares, trail, choice)
    ensures FromChoice(edges, boms, shares, y, trail, choice) && y in Table(edges, boms, shares, |trail| - 1)
  {
    hide TierTraversal.Returns, Product, Table;
    var t := TierTraversal.RowOf(trail);
    y := Row(t.edge, choice[|choice| - 1], Product(choice), t.path, t.isCycle);
    TableIsChoices(edges, boms, shares, |trail| - 1, y);
  }

  /** The rollup stops on every table after as many rounds as there are hop labels. */
  lemma Terminates(edges: seq<Edge>, boms: set<nat>, shares: Shares)
    ensures Table(edges, boms, shares, MaxHop(edges) + 1) == []
  {
    var n := MaxHop(edges) + 1;
    if Table(edges, boms, shares, n) != [] {
      var y := Table(edges, boms, shares, n)[0];
      RollupFollowsTree(edges, boms, shares, n, Plain(y, n));
      TierTraversal.Terminates(edges, boms);
    }
  }

  // ---- Mass ----

  function Mass(rows: seq<Row>): real {
    if rows == [] then 0.0 else rows[0].cum + Mass(rows[1..])
  }

  function FactorSum(forks: seq<Share>): real {
    if forks == [] then 0.0 else Factor(forks[0]) + FactorSum(forks[1..])
  }

  function EdgeFan(shares: Shares, d: Edge, e: Edge): real {
    if Follows(e, d) then FactorSum(JoinedShares(shares, e)) else 0.0
  }

  /** The sum of the child-row factors of any row on edge d. */
  function FanOut(edges: seq<Edge>, shares: Shares, d: Edge): real {
    if edges == [] then 0.0 else EdgeFan(shares, d, edges[0]) + FanOut(edges[1..], shares, d)
  }

  /** A row without child rows: a leaf, or a row cut by the cycle test. */
  predicate IsEnd(edges: seq<Edge>, r: Row) {
    r.isCycle || forall e :: e in edges ==> !Follows(e, r.edge)
  }

  function RowEnd(edges: seq<Edge>, r: Row): real {
    if IsEnd(edges, r) then r.cum else 0.0
  }

  function EndMass(edges: seq<Edge>, rows: seq<Row>): real {
    if rows == [] then 0.0 else RowEnd(edges, rows[0]) + EndMass(edges, rows[1..])
  }

  lemma {:induction false} MassAppend(a: seq<Row>, b: seq<Row>)
    ensures Mass(a + b) == Mass(a) + Mass(b)
  {
    if a == [] {
      assert a + b == b;
    } else {
      MassAppend(a[1..], b);
      assert (a + b)[1..] == a[1..] + b;
    }
  }

  lemma {:induction false} EndMassAppend(edges: seq<Edge>, a: seq<Row>, b: seq<Row>)
    ensures EndMass(edges, a + b) == EndMass(edges, a) + EndMass(edges, b)
  {
    if a == [] {
      assert a + b == b;
    } else {
      EndMassAppend(edges, a[1..], b);
      assert (a + b)[1..] == a[1..] + b;
    }
  }

  lemma {:induction false} ForkMass(e: Edge, forks: seq<Share>, cum: real, path: seq<(nat, nat)>, isCycle: bool)
    ensures Mass(Fork(e, forks, cum, path, isCycle)) == Times(cum, FactorSum(forks))
  {
    if forks == [] {
      TimesZero(cum);
    } else {
      hide Times;
      ForkMass(e, forks[1..], cum, path, isCycle);
      var head := Row(e, forks[0], Times(cum, Factor(forks[0])), path, isCycle);
      var rest := Fork(e, forks[1..], cum, path, isCycle);
      assert ([head] + rest)[1..] == rest;
      Distribute(cum, Factor(forks[0]), FactorSum(forks[1..]));
    }
  }

  lemma TimesZero(k: real)
    ensures Times(k, 0.0) == 0.0
  {
  }

  lemma Distribute(k: real, a: real, b: real)
    ensures Times(k, a + b) == Times(k, a) + Times(k, b)
  {
  }

  lemma ChildRowsMass(shares: Shares, r: Row, e: Edge)
    ensures Mass(ChildRows(shares, r, e)) == if r.isCycle then 0.0 else Times(r.cum, EdgeFan(shares, r.edge, e))
  {
    hide Times;
    TimesZero(r.cum);
    ForkMass(e, JoinedShares(shares, e), r.cum, r.path + [Key(e)], Key(e) in r.path);
  }

  lemma {:induction false} ExpandMass(edges: seq<Edge>, shares: Shares, r: Row)
    ensures Mass(Expand(edges, shares, r))
            == if r.isCycle then 0.0 else Times(r.cum, FanOut(edges, shares, r.edge))
  {
    hide Times;
    if edges == [] {
      TimesZero(r.cum);
    } else {
      ExpandMass(edges[1..], shares, r);
      ChildRowsMass(shares, r, edges[0]);
      MassAppend(ChildRows(shares, r, edges[0]), Expand(edges[1..], shares, r));
      Distribute(r.cum, EdgeFan(shares, r.edge, edges[0]), FanOut(edges[1..], shares, r.edge));
    }
  }

  lemma {:induction false} NoFollowerNoFan(edges: seq<Edge>, shares: Shares, d: Edge)
    requires forall e :: e in edges ==> !Follows(e, d)
    ensures FanOut(edges, shares, d) == 0.0
  {
    if edges != [] {
      NoFollowerNoFan(edges[1..], shares, d);
    }
  }

  /** Every expanded row of `rows` spreads over child rows whose factors sum to lo..hi. */
  ghost predicate FansWithin(edges: seq<Edge>, shares: Shares, rows: seq<Row>, lo: real, hi: real) {
    forall r :: r in rows && !IsEnd(edges, r) ==> lo <= FanOut(edges, shares, r.edge) <= hi
  }

  ghost predicate AllFansWithin(edges: seq<Edge>, boms: set<nat>, shares: Shares, lo: real, hi: real) {
    forall k: nat :: FansWithin(edges, shares, Table(edges, boms, shares, k), lo, hi)
  }

  ghost predicate NonNegative(rows: seq<Row>) {
    forall r :: r in rows ==> r.cum >= 0.0
  }

  /** What a row passes on to its child rows. */
  function Passed(edges: seq<Edge>, r: Row): real {
    if IsEnd(edges, r) then 0.0 else r.cum
  }

  function PassedSum(edges: seq<Edge>, rows: seq<Row>): real {
    if rows == [] then 0.0 else Passed(edges, rows[0]) + PassedSum(edges, rows[1..])
  }

  lemma {:induction false} PassedOrEnded(edges: seq<Edge>, rows: seq<Row>)
    ensures PassedSum(edges, rows) + EndMass(edges, rows) == Mass(rows)
  {
    if rows != [] {
      PassedOrEnded(edges, rows[1..]);
    }
  }

  lemma TimesCommutes(a: real, b: real)
    ensures Times(a, b) == Times(b, a)
  {
  }

  lemma TimesMonotone(k: real, a: real, b: real)
    requires k >= 0.0 && a <= b
    ensures Times(k, a) <= Times(k, b)
  {
  }

  lemma TimesBounds(x: real, f: real, lo: real, hi: real)
    requires lo <= f <= hi && (x >= 0.0 || lo == hi)
    ensures Times(lo, x) <= Times(x, f) <= Times(hi, x)
  {
    hide Times;
    TimesCommutes(lo, x);
    TimesCommutes(hi, x);
    if lo < hi {
      TimesMonotone(x, lo, f);
      TimesMonotone(x, f, hi);
    }
  }

  lemma RowMass(edges: seq<Edge>, shares: Shares, r: Row, lo: real, hi: real)
    requires !IsEnd(edges, r) ==> lo <= FanOut(edges, shares, r.edge) <= hi
    requires r.cum >= 0.0 || lo == hi
    ensures Times(lo, Passed(edges, r)) <= Mass(Expand(edges, shares, r)) <= Times(hi, Passed(edges, r))
  {
    hide Times;
    ExpandMass(edges, shares, r);
    if IsEnd(edges, r) {
      TimesZero(lo);
      TimesZero(hi);
      if !r.isCycle {
        TimesZero(r.cum);
        NoFollowerNoFan(edges, shares, r.edge);
      }
    } else {
      TimesBounds(r.cum, FanOut(edges, shares, r.edge), lo, hi);
    }
  }

  lemma SplitRound(edges: seq<Edge>, shares: Shares, rows: seq<Row>)
    requires rows != []
    ensures Mass(Next(Step(edges, shares), rows))
            == Mass(Expand(edges, shares, rows[0])) + Mass(Next(Step(edges, shares), rows[1..]))
  {
    hide Times, Expand, Mass;
    MassAppend(Step(edges, shares)(rows[0]), Next(Step(edges, shares), rows[1..]));
  }

  lemma NothingPassed(edges: seq<Edge>, shares: Shares)
    ensures Mass(Next(Step(edges, shares), [])) == 0.0
  {
  }

  /** One round: what does not end is passed on, scaled by lo..hi. */
  lemma {:induction false} RoundMass(edges: seq<Edge>, shares: Shares, rows: seq<Row>, lo: real, hi: real)
    requires FansWithin(edges, shares, rows, lo, hi)
    requires NonNegative(rows) || lo == hi
    ensures Times(lo, PassedSum(edges, rows)) <= Mass(Next(Step(edges, shares), rows))
            <= Times(hi, PassedSum(edges, rows))
  {
    hide Times, Expand, IsEnd, FanOut, Mass, Next, Passed, Step;
    if rows == [] {
      TimesZero(lo);
      TimesZero(hi);
      NothingPassed(edges, shares);
    } else {
      var r, rest := rows[0], rows[1..];
      assert r in rows && forall x :: x in rest ==> x in rows;
      RoundMass(edges, shares, rest, lo, hi);
      RowMass(edges, shares, r, lo, hi);
      SplitRound(edges, shares, rows);
      Distribute(lo, Passed(edges, r), PassedSum(edges, rest));
      Distribute(hi, Passed(edges, r), PassedSum(edges, rest));
    }
  }

  lemma RoundIsExact(edges: seq<Edge>, shares: Shares, rows: seq<Row>)
    requires FansWithin(edges, shares, rows, 1.0, 1.0)
    ensures Mass(Next(Step(edges, shares), rows)) == Mass(rows) - EndMass(edges, rows)
  {
    RoundMass(edges, shares, rows, 1.0, 1.0);
    PassedOrEnded(edges, rows);
  }

  /**
   Mass balance with exact fans: after any number of rounds, what has ended plus what is still in the
   working table is what the root rows brought in.
   */
  lemma {:induction false} BalanceAfterRounds(edges: seq<Edge>, boms: set<nat>, shares: Shares, rounds: nat)
    requires AllFansWithin(edges, boms, shares, 1.0, 1.0)
    ensures EndMass(edges, Accumulated(Anchor(edges, boms, shares), Step(edges, shares), rounds))
            + Mass(Table(edges, boms, shares, rounds))
            == Mass(Anchor(edges, boms, shares))
  {
    hide Anchor, Expand, Mass, FanOut, Times;
    if rounds > 0 {
      var anchor, step := Anchor(edges, boms, shares), Step(edges, shares);
      BalanceAfterRounds(edges, boms, shares, rounds - 1);
      var table := Table(edges, boms, shares, rounds - 1);
      EndMassAppend(edges, Accumulated(anchor, step, rounds - 1), table);
      RoundIsExact(edges, shares, table);
      assert Table(edges, boms, shares, rounds) == Next(step, table);
    }
  }

  /** The rows the query reports as leaves, and the rows it drops because their key was on the path. */
  function LeafMass(edges: seq<Edge>, rows: seq<Row>): real {
    if rows == [] then 0.0
    else (if IsEnd(edges, rows[0]) && !rows[0].isCycle then rows[0].cum else 0.0) + LeafMass(edges, rows[1..])
  }

  function CutMass(rows: seq<Row>): real {
    if rows == [] then 0.0 else (if rows[0].isCycle then rows[0].cum else 0.0) + CutMass(rows[1..])
  }

  lemma {:induction false} EndsAreLeavesAndCuts(edges: seq<Edge>, rows: seq<Row>)
    ensures EndMass(edges, rows) == LeafMass(edges, rows) + CutMass(rows)
  {
    if rows != [] {
      EndsAreLeavesAndCuts(edges, rows[1..]);
    }
  }

  /**
   Conservation: when the child-row ratios of every expanded row sum to 100, the leaf rows and the
   cut rows together carry what the root rows carry, through every factory fork and NULL ratio.
   */
  lemma MassIsConserved(edges: seq<Edge>, boms: set<nat>, shares: Shares)
    requires AllFansWithin(edges, boms, shares, 1.0, 1.0)
    ensures LeafMass(edges, Rows(edges, boms, shares)) + CutMass(Rows(edges, boms, shares))
            == Mass(Anchor(edges, boms, shares))
  {
    BalanceAfterRounds(edges, boms, shares, MaxHop(edges) + 1);
    Terminates(edges, boms, shares);
    EndsAreLeavesAndCuts(edges, Rows(edges, boms, shares));
  }

  /** On an acyclic supplier graph nothing is cut. */
  lemma {:induction false} NothingCut(edges: seq<Edge>, boms: set<nat>, shares: Shares, rounds: nat)
    requires Acyclic(SupplierArcs(edges))
    ensures CutMass(Accumulated(Anchor(edges, boms, shares), Step(edges, shares), rounds)) == 0.0
  {
    var anchor, step := Anchor(edges, boms, shares), Step(edges, shares);
    forall r | r in Accumulated(anchor, step, rounds) ensures !r.isCycle {
      var k := RoundOf(anchor, step, rounds, r);
      RollupFollowsTree(edges, boms, shares, k, Plain(r, k));
      TierTraversal.TableIsTrails(edges, boms, k, Plain(r, k));
      var trail :| TierTraversal.FromTrail(edges, boms, k, Plain(r, k), trail);
      TierTraversal.AcyclicTrailsAreLive(edges, boms, trail);
    }
    NoCutRows(Accumulated(anchor, step, rounds));
  }

  lemma {:induction false} NoCutRows(rows: seq<Row>)
    requires forall r :: r in rows ==> !r.isCycle
    ensures CutMass(rows) == 0.0
  {
    if rows != [] {
      NoCutRows(rows[1..]);
    }
  }

  // ---- Bounds when the fans are only near 1 ----

  function Pow(x: real, n: nat): real {
    if n == 0 then 1.0 else Times(x, Pow(x, n - 1))
  }

  ghost predicate NonNegativeShares(edges: seq<Edge>, boms: set<nat>, shares: Shares) {
    forall e, s :: e in edges && e.bom in boms && s in JoinedShares(shares, e) ==> Factor(s) >= 0.0
  }

  predicate Sound(edges: seq<Edge>, boms: set<nat>, r: Row) {
    r.edge in edges && r.edge.bom in boms && r.cum >= 0.0
  }

  lemma {:induction false} TableIsSound(edges: seq<Edge>, boms: set<nat>, shares: Shares, round: nat, y: Row)
    requires NonNegativeShares(edges, boms, shares) && y in Table(edges, boms, shares, round)
    ensures Sound(edges, boms, y)
  {
    hide Expand, Anchor, Factor, JoinedShares;
    if round == 0 {
      InAnchor(edges, boms, shares, y);
    } else {
      var r := RowAbove(edges, boms, shares, round, y);
      TableIsSound(edges, boms, shares, round - 1, r);
      InExpand(edges, shares, r, y);
    }
  }

  lemma {:induction false} SumsNonNegative(edges: seq<Edge>, rows: seq<Row>)
    requires NonNegative(rows)
    ensures EndMass(edges, rows) >= 0.0 && PassedSum(edges, rows) >= 0.0
  {
    if rows != [] {
      assert rows[0] in rows && forall r :: r in rows[1..] ==> r in rows;
      SumsNonNegative(edges, rows[1..]);
    }
  }

  lemma TimesOne(k: real)
    ensures Times(1.0, k) == k
  {
  }

  lemma TimesAssociates(a: real, b: real, c: real)
    ensures Times(Times(a, b), c) == Times(a, Times(b, c))
  {
  }

  lemma TimesShrinks(lo: real, hi: real, x: real)
    requires lo <= 1.0 <= hi && x >= 0.0
    ensures Times(lo, x) <= x <= Times(hi, x)
  {
  }

  /** The arithmetic of one round: what ended stays, what was passed on is scaled. */
  lemma RoundBounds(lo: real, hi: real, powLo: real, powHi: real, root: real, kept: real, passed: real, next: real)
    requires 0.0 <= lo <= 1.0 <= hi && kept >= 0.0
    requires Times(powLo, root) <= kept + passed <= Times(powHi, root)
    requires Times(lo, passed) <= next <= Times(hi, passed)
    ensures Times(Times(lo, powLo), root) <= kept + next <= Times(Times(hi, powHi), root)
  {
    hide Times;
    TimesAssociates(lo, powLo, root);
    TimesMonotone(lo, Times(powLo, root), kept + passed);
    Distribute(lo, kept, passed);
    TimesShrinks(lo, hi, kept);
    TimesAssociates(hi, powHi, root);
    TimesMonotone(hi, kept + passed, Times(powHi, root));
    Distribute(hi, kept, passed);
  }

  lemma {:induction false} BoundsAfterRounds(
      edges: seq<Edge>, boms: set<nat>, shares: Shares, rounds: nat, lo: real, hi: real)
    requires 0.0 <= lo <= 1.0 <= hi && AllFansWithin(edges, boms, shares, lo, hi)
    requires NonNegativeShares(edges, boms, shares)
    ensures
      var done := EndMass(edges, Accumulated(Anchor(edges, boms, shares), Step(edges, shares), rounds));
      && done >= 0.0
      && Times(Pow(lo, rounds), Mass(Anchor(edges, boms, shares)))
         <= done + Mass(Table(edges, boms, shares, rounds))
         <= Times(Pow(hi, rounds), Mass(Anchor(edges, boms, shares)))
  {
    hide Anchor, Expand, Mass, FanOut, RowEnd, Times;
    var anchor, step := Anchor(edges, boms, shares), Step(edges, shares);
    if rounds == 0 {
      TimesOne(Mass(anchor));
    } else {
      BoundsAfterRounds(edges, boms, shares, rounds - 1, lo, hi);
      var table := Table(edges, boms, shares, rounds - 1);
      var before := Accumulated(anchor, step, rounds - 1);
      forall r | r in table ensures r.cum >= 0.0 {
        TableIsSound(edges, boms, shares, rounds - 1, r);
      }
      EndMassAppend(edges, before, table);
      RoundMass(edges, shares, table, lo, hi);
      PassedOrEnded(edges, table);
      SumsNonNegative(edges, table);
      RoundBounds(lo, hi, Pow(lo, rounds - 1), Pow(hi, rounds - 1), Mass(anchor),
                  EndMass(edges, before) + EndMass(edges, table), PassedSum(edges, table), Mass(Next(step, table)));
    }
  }

  lemma {:induction false} ForksExist(shares: Shares, r: Row, e: Edge)
    requires !r.isCycle && Follows(e, r.edge)
    ensures ChildRows(shares, r, e) != []
  {
  }

  lemma {:induction false} ExpandedHasRows(edges: seq<Edge>, shares: Shares, r: Row, e: Edge)
    requires !r.isCycle && e in edges && Follows(e, r.edge)
    ensures Expand(edges, shares, r) != []
  {
    if e == edges[0] {
      ForksExist(shares, r, e);
    } else {
      ExpandedHasRows(edges[1..], shares, r, e);
    }
  }

  /** A table that is followed by an empty one holds only rows that end. */
  lemma {:induction false} LastTableEnds(edges: seq<Edge>, shares: Shares, rows: seq<Row>)
    requires Next(Step(edges, shares), rows) == []
    ensures EndMass(edges, rows) == Mass(rows)
  {
    hide Expand;
    if rows != [] {
      var r := rows[0];
      LastTableEnds(edges, shares, rows[1..]);
      assert Expand(edges, shares, r) == Step(edges, shares)(r) == [];
      if !IsEnd(edges, r) {
        var e :| e in edges && Follows(e, r.edge);
        ExpandedHasRows(edges, shares, r, e);
      }
    }
  }

  /** With fans between lo and hi, the mass that ends lies between the root mass scaled by lo and by hi
      once per hop. */
  lemma MassIsBounded(edges: seq<Edge>, boms: set<nat>, shares: Shares, lo: real, hi: real)
    requires 0.0 <= lo <= 1.0 <= hi && AllFansWithin(edges, boms, shares, lo, hi)
    requires NonNegativeShares(edges, boms, shares)
    ensures Times(Pow(lo, MaxHop(edges)), Mass(Anchor(edges, boms, shares)))
            <= EndMass(edges, Rows(edges, boms, shares))
            <= Times(Pow(hi, MaxHop(edges)), Mass(Anchor(edges, boms, shares)))
  {
    hide Anchor, Expand, Mass, Pow, Times;
    var d := MaxHop(edges);
    BoundsAfterRounds(edges, boms, shares, d, lo, hi);
    Terminates(edges, boms, shares);
    LastTableEnds(edges, shares, Table(edges, boms, shares, d));
    EndMassAppend(edges, Accumulated(Anchor(edges, boms, shares), Step(edges, shares), d),
                  Table(edges, boms, shares, d));
  }

  // ---- Rounding ----

  /** ROUND(x, 4) on numeric: to the nearest multiple of 0.0001, halves away from zero. */
  function Round4(x: real): real {
    if x >= 0.0 then (x * 10000.0 + 0.5).Floor as real / 10000.0
    else -((-x * 10000.0 + 0.5).Floor as real / 10000.0)
  }

  lemma RoundError(x: real)
    ensures -0.00005 <= Round4(x) - x <= 0.00005
  {
    var y := if x >= 0.0 then x * 10000.0 + 0.5 else -x * 10000.0 + 0.5;
    assert y - 1.0 < y.Floor as real <= y;
  }

  function Distance(a: real, b: real): real {
    if a <= b then b - a else a - b
  }

  /** The k-th number of four decimals. */
  function FourDecimals(k: int): real {
    k as real / 10000.0
  }

  /** The result has four decimals; no other such number is nearer, and of two equally near ones it is the
      one further from zero. */
  lemma RoundIsNearest(x: real) returns (k: int)
    ensures Round4(x) == FourDecimals(k)
    ensures forall j: int :: j != k ==>
              && Distance(Round4(x), x) <= Distance(FourDecimals(j), x)
              && (Distance(Round4(x), x) == Distance(FourDecimals(j), x) ==>
                    Distance(Round4(x), 0.0) > Distance(FourDecimals(j), 0.0))
  {
    k := if x >= 0.0 then (x * 10000.0 + 0.5).Floor else -((-x * 10000.0 + 0.5).Floor);
    RoundError(x);
  }

  /** The report lists a supplier's contribution on an edge for a factory share. */
  ghost predicate Reported(edges: seq<Edge>, boms: set<nat>, shares: Shares, e: Edge, s: Share, contribution: real) {
    exists y :: y in Rows(edges, boms, shares) && !y.isCycle && y.edge == e && y.share == s
                && contribution == Round4(y.cum * 100.0)
  }

  /** A trail on which no edge comes back to an earlier supplier and part. */
  ghost predicate IsOpenTrail(edges: seq<Edge>, boms: set<nat>, trail: seq<Edge>) {
    && TierTraversal.IsTrail(edges, boms, trail)
    && forall i, k :: 0 <= i < k < |trail| && trail[i].child == trail[k].child ==> trail[i].part != trail[k].part
  }

  /** An open trail to the edge with a choice of shares that ends in the given one, and what it contributes. */
  ghost predicate Contributes(edges: seq<Edge>, boms: set<nat>, shares: Shares, trail: seq<Edge>, choice: seq<Share>,
                              e: Edge, s: Share, contribution: real) {
    && IsOpenTrail(edges, boms, trail) && trail[|trail| - 1] == e
    && Chosen(shares, trail, choice) && choice[|choice| - 1] == s
    && contribution == Round4(Product(choice) * 100.0)
  }

  lemma ReportedContributes(edges: seq<Edge>, boms: set<nat>, shares: Shares, y: Row)
      returns (trail: seq<Edge>, choice: seq<Share>)
    requires y in Rows(edges, boms, shares) && !y.isCycle
    ensures Contributes(edges, boms, shares, trail, choice, y.edge, y.share, Round4(y.cum * 100.0))
  {
    hide Product, Round4, TierTraversal.IsTrail;
    var k := RoundOf(Anchor(edges, boms, shares), Step(edges, shares), MaxHop(edges) + 1, y);
    TableIsChoices(edges, boms, shares, k, y);
    trail, choice :| FromChoice(edges, boms, shares, y, trail, choice) && |trail| == k + 1;
    LiveUnflaggedIsOpen(edges, boms, trail);
  }

  lemma ContributionIsReported(edges: seq<Edge>, boms: set<nat>, shares: Shares, trail: seq<Edge>,
                               choice: seq<Share>, e: Edge, s: Share, contribution: real)
    requires Contributes(edges, boms, shares, trail, choice, e, s, contribution)
    ensures Reported(edges, boms, shares, e, s, contribution)
  {
    hide Product, Round4, Chosen;
    LiveUnflaggedIsOpen(edges, boms, trail);
    var y := RowWith(edges, boms, shares, trail, choice);
    var k := |trail| - 1;
    TierTraversal.TrailHop(edges, boms, trail, k);
    MaxHopBounds(edges, trail[k]);
    RoundIsKept(Anchor(edges, boms, shares), Step(edges, shares), MaxHop(edges) + 1, k, y);
  }

  /** What the report says of one factory: each open trail to the edge, with each choice of shares that ends
      in the factory's own, is reported as the rounded percentage of the product of the chosen ratios. */
  lemma ReportedIff(edges: seq<Edge>, boms: set<nat>, shares: Shares, e: Edge, s: Share, contribution: real)
    ensures Reported(edges, boms, shares, e, s, contribution)
            <==> exists trail, choice :: Contributes(edges, boms, shares, trail, choice, e, s, contribution)
  {
    hide Contributes, Round4, Rows;
    if Reported(edges, boms, shares, e, s, contribution) {
      var y :| y in Rows(edges, boms, shares) && !y.isCycle && y.edge == e && y.share == s
               && contribution == Round4(y.cum * 100.0);
      var trail, choice := ReportedContributes(edges, boms, shares, y);
    }
    if trail, choice :| Contributes(edges, boms, shares, trail, choice, e, s, contribution) {
      ContributionIsReported(edges, boms, shares, trail, choice, e, s, contribution);
    }
  }

  lemma LiveUnflaggedIsOpen(edges: seq<Edge>, boms: set<nat>, trail: seq<Edge>)
    requires TierTraversal.IsTrail(edges, boms, trail)
    ensures IsOpenTrail(edges, boms, trail)
            <==> TierTraversal.IsLiveTrail(edges, boms, trail) && !TierTraversal.RowOf(trail).isCycle
  {
    if TierTraversal.IsLiveTrail(edges, boms, trail) && !TierTraversal.RowOf(trail).isCycle {
      forall i, k | 0 <= i < k < |trail| && trail[i].child == trail[k].child ensures trail[i].part != trail[k].part {
        assert !TierTraversal.Returns(trail, k);
      }
    }
  }

  /** cumulative_contribution summed over the reported leaves. */
  function ReportedLeaves(edges: seq<Edge>, rows: seq<Row>): real {
    if rows == [] then 0.0
    else
      (if IsEnd(edges, rows[0]) && !rows[0].isCycle then Round4(rows[0].cum * 100.0) else 0.0)
      + ReportedLeaves(edges, rows[1..])
  }

  function LeafCount(edges: seq<Edge>, rows: seq<Row>): nat {
    if rows == [] then 0
    else (if IsEnd(edges, rows[0]) && !rows[0].isCycle then 1 else 0) + LeafCount(edges, rows[1..])
  }

  lemma {:induction false} RoundingOfLeaves(edges: seq<Edge>, rows: seq<Row>)
    ensures -0.00005 * LeafCount(edges, rows) as real
            <= ReportedLeaves(edges, rows) - 100.0 * LeafMass(edges, rows)
            <= 0.00005 * LeafCount(edges, rows) as real
  {
    if rows != [] {
      RoundingOfLeaves(edges, rows[1..]);
      RoundError(rows[0].cum * 100.0);
    }
  }

  /**
   The reported leaf contributions of an acyclic, balanced table sum to the percentage of the root
   rows, up to half a unit of the fourth decimal per leaf.
   */
  lemma ReportSumsToRoots(edges: seq<Edge>, boms: set<nat>, shares: Shares)
    requires Acyclic(SupplierArcs(edges)) && AllFansWithin(edges, boms, shares, 1.0, 1.0)
    ensures
      var rows := Rows(edges, boms, shares);
      var off := ReportedLeaves(edges, rows) - 100.0 * Mass(Anchor(edges, boms, shares));
      -0.00005 * LeafCount(edges, rows) as real <= off <= 0.00005 * LeafCount(edges, rows) as real
  {
    MassIsConserved(edges, boms, shares);
    NothingCut(edges, boms, shares, MaxHop(edges) + 1);
    RoundingOfLeaves(edges, Rows(edges, boms, shares));
  }
}
