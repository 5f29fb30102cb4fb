/**
 The validation query (sums of 100 within 0.01 per edge and per parent-and-part group) and what a valid
 table means for the rollup.
 */
module RatioValidation {
  import opened Common
  import opened RecursiveQuery
  import opened SupplyEdges
  import opened Contribution

  /** SUM(ratio_percentage) of one edge: SUM skips NULLs, and a NULL sum counts as 0. */
  function PercentSum(rows: seq<Share>): real {
    if rows == [] then 0.0
    else (if rows[0].percent.Some? then rows[0].percent.value else 0.0) + PercentSum(rows[1..])
  }

  function EdgeTotal(shares: Shares, e: Edge): real {
    if Rated(shares, e) then PercentSum(shares[e.id]) else 0.0
  }

  predicate SumOk(total: real) {
    -0.01 <= total - 100.0 <= 0.01
  }

  predicate InScope(e: Edge, boms: set<nat>, shares: Shares) {
    e.bom in boms && Rated(shares, e)
  }

  /** The grouping key of the tier sums; the BOM version is not part of it. */
  predicate InGroup(e: Edge, boms: set<nat>, shares: Shares, parent: nat, part: nat) {
    InScope(e, boms, shares) && e.parent == Some(parent) && e.part == part
  }

  function TierTotal(edges: seq<Edge>, boms: set<nat>, shares: Shares, parent: nat, part: nat): real {
    if edges == [] then 0.0
    else
      (if InGroup(edges[0], boms, shares, parent, part) then EdgeTotal(shares, edges[0]) else 0.0)
      + TierTotal(edges[1..], boms, shares, parent, part)
  }

  /** The joined supply_ratio rows of one group: what the query sums. */
  function GroupRows(edges: seq<Edge>, boms: set<nat>, shares: Shares, parent: nat, part: nat): seq<Share> {
    if edges == [] then []
    else
      var e := edges[0];
      (if e.bom in boms && e.parent == Some(parent) && e.part == part && e.id in shares then shares[e.id] else [])
      + GroupRows(edges[1..], boms, shares, parent, part)
  }

  lemma {:induction false} PercentSumAppend(a: seq<Share>, b: seq<Share>)
    ensures PercentSum(a + b) == PercentSum(a) + PercentSum(b)
  {
    if a == [] {
      assert a + b == b;
    } else {
      PercentSumAppend(a[1..], b);
      assert (a + b)[1..] == a[1..] + b;
    }
  }

  /** The total of a group is the sum over its joined rows, however they are spread over edges and BOM
      versions. */
  lemma {:induction false} TierSumsItsRows(edges: seq<Edge>, boms: set<nat>, shares: Shares, parent: nat, part: nat)
    ensures TierTotal(edges, boms, shares, parent, part) == PercentSum(GroupRows(edges, boms, shares, parent, part))
  {
    if edges != [] {
      var e, rest := edges[0], edges[1..];
      TierSumsItsRows(rest, boms, shares, parent, part);
      if e.bom in boms && e.parent == Some(parent) && e.part == part && e.id in shares {
        PercentSumAppend(shares[e.id], GroupRows(rest, boms, shares, parent, part));
      } else {
        assert [] + GroupRows(rest, boms, shares, parent, part) == GroupRows(rest, boms, shares, parent, part);
      }
    }
  }

  ghost predicate EdgesOk(edges: seq<Edge>, boms: set<nat>, shares: Shares) {
    forall e :: e in edges && InScope(e, boms, shares) ==> SumOk(EdgeTotal(shares, e))
  }

  ghost predicate TiersOk(edges: seq<Edge>, boms: set<nat>, shares: Shares) {
    forall e :: e in edges && InScope(e, boms, shares) && e.parent.Some? ==>
      SumOk(TierTotal(edges, boms, shares, e.parent.value, e.part))
  }

  /** all_valid. Both inner joins drop unrated edges. */
  ghost predicate AllValid(edges: seq<Edge>, boms: set<nat>, shares: Shares) {
    EdgesOk(edges, boms, shares) && TiersOk(edges, boms, shares)
  }

  /** Two rated edges of the product through which one parent buys one part. */
  predicate SameGroup(e: Edge, f: Edge, boms: set<nat>, shares: Shares) {
    && e.parent.Some? && f.parent == e.parent && f.part == e.part
    && e.bom in boms && e.id in shares && shares[e.id] != []
    && f.bom in boms && f.id in shares && shares[f.id] != []
  }

  /** No supplier receives one part from two rated edges. */
  ghost predicate SingleSourced(edges: seq<Edge>, boms: set<nat>, shares: Shares) {
    forall i, j :: 0 <= i < j < |edges| ==> !SameGroup(edges[i], edges[j], boms, shares)
  }

  function GroupSize(edges: seq<Edge>, boms: set<nat>, shares: Shares, parent: nat, part: nat): nat {
    if edges == [] then 0
    else
      (if InGroup(edges[0], boms, shares, parent, part) then 1 else 0)
      + GroupSize(edges[1..], boms, shares, parent, part)
  }

  lemma {:induction false} GroupSums(edges: seq<Edge>, boms: set<nat>, shares: Shares, parent: nat, part: nat)
    requires EdgesOk(edges, boms, shares)
    ensures 99.99 * GroupSize(edges, boms, shares, parent, part) as real
            <= TierTotal(edges, boms, shares, parent, part)
            <= 100.01 * GroupSize(edges, boms, shares, parent, part) as real
  {
    if edges != [] {
      assert EdgesOk(edges[1..], boms, shares) by {
        assert forall e :: e in edges[1..] ==> e in edges;
      }
      GroupSums(edges[1..], boms, shares, parent, part);
      assert edges[0] in edges;
    }
  }

  lemma {:induction false} MemberCounts(edges: seq<Edge>, boms: set<nat>, shares: Shares, i: nat)
    requires i < |edges| && InScope(edges[i], boms, shares) && edges[i].parent.Some?
    ensures GroupSize(edges, boms, shares, edges[i].parent.value, edges[i].part) >= 1
    ensures forall j :: i < j < |edges| && InGroup(edges[j], boms, shares, edges[i].parent.value, edges[i].part)
              ==> GroupSize(edges, boms, shares, edges[i].parent.value, edges[i].part) >= 2
  {
    var p, q := edges[i].parent.value, edges[i].part;
    if i == 0 {
      forall j | 0 < j < |edges| && InGroup(edges[j], boms, shares, p, q)
        ensures GroupSize(edges, boms, shares, p, q) >= 2
      {
        MemberCounts(edges[1..], boms, shares, j - 1);
      }
    } else {
      MemberCounts(edges[1..], boms, shares, i - 1);
      forall j | i < j < |edges| && InGroup(edges[j], boms, shares, p, q)
        ensures GroupSize(edges, boms, shares, p, q) >= 2
      {
        assert edges[1..][j - 1] == edges[j];
      }
    }
  }

  lemma {:induction false} TwoMembers(edges: seq<Edge>, boms: set<nat>, shares: Shares, parent: nat, part: nat)
      returns (i: nat, j: nat)
    requires GroupSize(edges, boms, shares, parent, part) >= 2
    ensures i < j < |edges| && InGroup(edges[i], boms, shares, parent, part)
            && InGroup(edges[j], boms, shares, parent, part)
  {
    if InGroup(edges[0], boms, shares, parent, part) {
      var k := OneMember(edges[1..], boms, shares, parent, part);
      i, j := 0, k + 1;
    } else {
      i, j := TwoMembers(edges[1..], boms, shares, parent, part);
      i, j := i + 1, j + 1;
    }
  }

  lemma {:induction false} OneMember(edges: seq<Edge>, boms: set<nat>, shares: Shares, parent: nat, part: nat)
      returns (i: nat)
    requires GroupSize(edges, boms, shares, parent, part) >= 1
    ensures i < |edges| && InGroup(edges[i], boms, shares, parent, part)
  {
    if InGroup(edges[0], boms, shares, parent, part) {
      i := 0;
    } else {
      i := OneMember(edges[1..], boms, shares, parent, part);
      i := i + 1;
    }
  }

  /**
   all_valid is true iff the percentages of every rated edge of the product sum to at least 99.99 and at
   most 100.01 and no part is sourced by one parent from two rated edges: the tolerance of 0.01 leaves no
   room for a split.
   */
  lemma AllValidIff(edges: seq<Edge>, boms: set<nat>, shares: Shares)
    ensures EdgesOk(edges, boms, shares)
            <==> forall e :: e in edges && e.bom in boms && e.id in shares && shares[e.id] != [] ==>
                   99.99 <= PercentSum(shares[e.id]) <= 100.01
    ensures AllValid(edges, boms, shares)
            <==> EdgesOk(edges, boms, shares) && SingleSourced(edges, boms, shares)
  {
    if EdgesOk(edges, boms, shares) {
      if TiersOk(edges, boms, shares) {
        forall i, j | 0 <= i < j < |edges| ensures !SameGroup(edges[i], edges[j], boms, shares) {
          if SameGroup(edges[i], edges[j], boms, shares) {
            MemberCounts(edges, boms, shares, i);
            GroupSums(edges, boms, shares, edges[i].parent.value, edges[i].part);
          }
        }
      }
      if SingleSourced(edges, boms, shares) {
        forall e | e in edges && InScope(e, boms, shares) && e.parent.Some?
          ensures SumOk(TierTotal(edges, boms, shares, e.parent.value, e.part))
        {
          var i :| 0 <= i < |edges| && edges[i] == e;
          MemberCounts(edges, boms, shares, i);
          GroupSums(edges, boms, shares, e.parent.value, e.part);
          if GroupSize(edges, boms, shares, e.parent.value, e.part) >= 2 {
            var j, k := TwoMembers(edges, boms, shares, e.parent.value, e.part);
          }
        }
      }
    }
  }

  // ---- What a valid table means for the rollup ----

  /** No share of an edge in scope is NULL: COALESCE would count a NULL share as 100 percent while
      SUM skips it (see NullShareDoubles). */
  ghost predicate NoNullShares(edges: seq<Edge>, boms: set<nat>, shares: Shares) {
    forall e :: e in edges && e.bom in boms ==>
      Rated(shares, e) && forall s :: s in shares[e.id] ==> s.percent.Some? && s.percent.value >= 0.0
  }

  function NullCount(rows: seq<Share>): nat {
    if rows == [] then 0 else (if rows[0].percent.None? then 1 else 0) + NullCount(rows[1..])
  }

  lemma {:induction false} FactorsAreHundredths(rows: seq<Share>)
    ensures FactorSum(rows) == PercentSum(rows) / 100.0 + NullCount(rows) as real
    ensures NullCount(rows) == 0 <==> forall s :: s in rows ==> s.percent.Some?
  {
    if rows != [] {
      FactorsAreHundredths(rows[1..]);
      assert forall s :: s in rows <==> s == rows[0] || s in rows[1..];
    }
  }

  /** A rated edge that validates hands on 100 percent within the tolerance iff none of its shares is NULL. */
  lemma ValidEdgeFactorIff(shares: Shares, e: Edge)
    requires Rated(shares, e) && SumOk(EdgeTotal(shares, e))
    ensures 0.9999 <= FactorSum(JoinedShares(shares, e)) <= 1.0001
            <==> forall s :: s in shares[e.id] ==> s.percent.Some?
  {
    FactorsAreHundredths(shares[e.id]);
  }

  lemma EdgeFactor(edges: seq<Edge>, boms: set<nat>, shares: Shares, e: Edge)
    requires EdgesOk(edges, boms, shares) && NoNullShares(edges, boms, shares) && e in edges && e.bom in boms
    ensures 0.9999 <= FactorSum(JoinedShares(shares, e)) <= 1.0001
  {
    assert InScope(e, boms, shares);
    ValidEdgeFactorIff(shares, e);
  }

  /** The parts a row on edge d branches into. */
  function Followers(edges: seq<Edge>, d: Edge): nat {
    if edges == [] then 0 else (if Follows(edges[0], d) then 1 else 0) + Followers(edges[1..], d)
  }

  /** In a valid table, a row hands on its mass once per child edge, up to 0.01 percent each. */
  lemma {:induction false} FanOfValidRow(edges: seq<Edge>, boms: set<nat>, shares: Shares, d: Edge)
    requires EdgesOk(edges, boms, shares) && NoNullShares(edges, boms, shares) && d.bom in boms
    ensures 0.9999 * Followers(edges, d) as real <= FanOut(edges, shares, d) <= 1.0001 * Followers(edges, d) as real
  {
    if edges != [] {
      var e, rest := edges[0], edges[1..];
      assert e in edges && forall x :: x in rest ==> x in edges;
      FanOfValidRow(rest, boms, shares, d);
      if Follows(e, d) {
        EdgeFactor(edges, boms, shares, e);
      }
    }
  }

  /** Each supplier of the product buys one part: the chains of the BOM do not branch by part. */
  ghost predicate SinglePart(edges: seq<Edge>, boms: set<nat>) {
    forall d, e, f | d in edges && e in edges && f in edges && Follows(e, d) && Follows(f, d) ::
      d.bom in boms ==> e.part == f.part
  }

  lemma {:induction false} CountFollowers(edges: seq<Edge>, d: Edge)
    ensures Followers(edges, d) >= 2 ==>
              exists i, j :: 0 <= i < j < |edges| && Follows(edges[i], d) && Follows(edges[j], d)
    ensures Followers(edges, d) >= 1 <==> exists i :: 0 <= i < |edges| && Follows(edges[i], d)
  {
    if edges != [] {
      var rest := edges[1..];
      CountFollowers(rest, d);
      if i :| 0 <= i < |rest| && Follows(rest[i], d) {
        assert edges[i + 1] == rest[i];
        if Follows(edges[0], d) {
          assert 0 < i + 1 < |edges| && Follows(edges[i + 1], d);
        }
      }
      if i, j :| 0 <= i < j < |rest| && Follows(rest[i], d) && Follows(rest[j], d) {
        assert Follows(edges[i + 1], d) && Follows(edges[j + 1], d);
      }
      if i :| 0 <= i < |edges| && Follows(edges[i], d) {
        assert i > 0 ==> rest[i - 1] == edges[i];
      }
    }
  }

  lemma OneFollower(edges: seq<Edge>, boms: set<nat>, shares: Shares, d: Edge)
    requires SingleSourced(edges, boms, shares) && NoNullShares(edges, boms, shares) && SinglePart(edges, boms)
    requires d in edges && d.bom in boms
    ensures Followers(edges, d) <= 1
  {
    CountFollowers(edges, d);
    if Followers(edges, d) >= 2 {
      var i, j :| 0 <= i < j < |edges| && Follows(edges[i], d) && Follows(edges[j], d);
      TwoFollowersClash(edges, boms, shares, d, i, j);
    }
  }

  lemma TwoFollowersClash(edges: seq<Edge>, boms: set<nat>, shares: Shares, d: Edge, i: nat, j: nat)
    requires NoNullShares(edges, boms, shares) && SinglePart(edges, boms)
    requires d in edges && d.bom in boms && i < j < |edges| && Follows(edges[i], d) && Follows(edges[j], d)
    ensures SameGroup(edges[i], edges[j], boms, shares)
  {
    assert edges[i] in edges && edges[j] in edges;
  }

  function RootCount(edges: seq<Edge>, boms: set<nat>): nat {
    if edges == [] then 0 else (if IsRootOf(edges[0], boms) then 1 else 0) + RootCount(edges[1..], boms)
  }

  lemma {:induction false} RootMass(edges: seq<Edge>, boms: set<nat>, shares: Shares)
    requires EdgesOk(edges, boms, shares) && NoNullShares(edges, boms, shares)
    ensures 0.9999 * RootCount(edges, boms) as real <= Mass(Anchor(edges, boms, shares))
            <= 1.0001 * RootCount(edges, boms) as real
  {
    if edges != [] {
      var e, rest := edges[0], edges[1..];
      assert e in edges && forall x :: x in rest ==> x in edges;
      RootMass(rest, boms, shares);
      var forks := JoinedShares(shares, e);
      var head := if IsRootOf(e, boms) then Fork(e, forks, 1.0, [Key(e)], false) else [];
      MassAppend(head, Anchor(rest, boms, shares));
      if IsRootOf(e, boms) {
        ForkMass(e, forks, 1.0, [Key(e)], false);
        EdgeFactor(edges, boms, shares, e);
      }
    }
  }

  lemma SharesNonNegative(edges: seq<Edge>, boms: set<nat>, shares: Shares)
    requires NoNullShares(edges, boms, shares)
    ensures NonNegativeShares(edges, boms, shares)
  {
  }

  lemma ValidFans(edges: seq<Edge>, boms: set<nat>, shares: Shares)
    requires AllValid(edges, boms, shares) && NoNullShares(edges, boms, shares) && SinglePart(edges, boms)
    ensures AllFansWithin(edges, boms, shares, 0.9999, 1.0001)
  {
    AllValidIff(edges, boms, shares);
    SharesNonNegative(edges, boms, shares);
    forall k: nat, r | r in Table(edges, boms, shares, k) && !IsEnd(edges, r)
      ensures 0.9999 <= FanOut(edges, shares, r.edge) <= 1.0001
    {
      TableIsSound(edges, boms, shares, k, r);
      OneFollower(edges, boms, shares, r.edge);
      CountFollowers(edges, r.edge);
      FanOfValidRow(edges, boms, shares, r.edge);
    }
  }

  /**
   In a table that passes validation, with every edge rated and no NULL share and with chains that do
   not branch by part, what the rollup ends with stays within 0.01 percent per hop of 100 per root.
   */
  lemma ValidTableBoundsRollup(edges: seq<Edge>, boms: set<nat>, shares: Shares)
    requires AllValid(edges, boms, shares) && NoNullShares(edges, boms, shares) && SinglePart(edges, boms)
    ensures
      var total := LeafMass(edges, Rows(edges, boms, shares)) + CutMass(Rows(edges, boms, shares));
      var roots := RootCount(edges, boms) as real;
      Pow(0.9999, MaxHop(edges) + 1) * roots <= total <= Pow(1.0001, MaxHop(edges) + 1) * roots
  {
    hide *;
    var d := MaxHop(edges);
    AllValidIff(edges, boms, shares);
    SharesNonNegative(edges, boms, shares);
    ValidFans(edges, boms, shares);
    MassIsBounded(edges, boms, shares, 0.9999, 1.0001);
    RootMass(edges, boms, shares);
    EndsAreLeavesAndCuts(edges, Rows(edges, boms, shares));
    NextPower(0.9999, d);
    NextPower(1.0001, d);
    ScaleRoots(Pow(0.9999, d), Pow(1.0001, d), Mass(Anchor(edges, boms, shares)), RootCount(edges, boms) as real);
  }

  lemma {:induction false} NextPower(x: real, n: nat)
    requires x > 0.0
    ensures Pow(x, n) > 0.0 && Pow(x, n + 1) == Times(x, Pow(x, n))
  {
    if n > 0 {
      NextPower(x, n - 1);
    }
  }

  lemma ScaleRoots(lo: real, hi: real, mass: real, roots: real)
    requires lo > 0.0 && hi > 0.0 && 0.9999 * roots <= mass <= 1.0001 * roots
    ensures Times(0.9999, lo) * roots <= Times(lo, mass) && Times(hi, mass) <= Times(1.0001, hi) * roots
  {
    assert lo * (0.9999 * roots) <= lo * mass;
    assert hi * mass <= hi * (1.0001 * roots);
  }

  // ---- Concrete disagreements between validation and rollup ----

  /** A root edge rated 100 with a second, NULL share passes validation, and the rollup counts it twice. */
  lemma NullShareDoubles()
    ensures
      var root := Edge(0, 0, None, 1, 2, 0);
      var shares: Shares := map[0 := [Share(Some(7), Some(100.0)), Share(Some(8), None)]];
      AllValid([root], {0}, shares) && Mass(Anchor([root], {0}, shares)) == 2.0
  {
    var root := Edge(0, 0, None, 1, 2, 0);
    var full, blank := Share(Some(7), Some(100.0)), Share(Some(8), None);
    var shares: Shares := map[0 := [full, blank]];
    assert [full, blank][1..] == [blank];
    assert PercentSum([blank]) == 0.0;
    assert PercentSum([full, blank]) == 100.0;
    assert FactorSum([blank]) == 1.0;
    ForkMass(root, [full, blank], 1.0, [Key(root)], false);
    var forked := Fork(root, [full, blank], 1.0, [Key(root)], false);
    assert Anchor([root], {0}, shares) == forked + [] == forked;
  }

  /** Two suppliers that split one part 20 to 80 balance the rollup (their factors sum to 1), but no
      such table is ever valid. */
  lemma SplitIsNeverValid(edges: seq<Edge>, boms: set<nat>, shares: Shares, i: nat, j: nat)
    requires i < j < |edges| && SameGroup(edges[i], edges[j], boms, shares)
    ensures !AllValid(edges, boms, shares)
  {
    AllValidIff(edges, boms, shares);
  }
}
