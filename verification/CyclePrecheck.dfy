/**
 The cycle pre-check: an unguarded recursive query that walks down from the proposed child and asks
 whether the proposed parent turns up. `EXISTS` takes rows as the recursion produces them, so the
 query answers as soon as it meets the parent; without a match it must exhaust the recursion.
 */
module CyclePrecheck {
  import opened Common
  import opened Digraph
  import opened RecursiveQuery
  import opened SupplyEdges

  /** One row for every edge below `s`: the anchor for s = child, the recursive join for others. */
  function Below1(edges: seq<Edge>, s: nat): seq<nat> {
    if edges == [] then []
    else (if edges[0].parent == Some(s) then [edges[0].child] else []) + Below1(edges[1..], s)
  }

  function Step(edges: seq<Edge>): nat -> seq<nat> {
    s => Below1(edges, s)
  }

  function Descendants(edges: seq<Edge>, child: nat, round: nat): seq<nat> {
    WorkTable(Below1(edges, child), Step(edges), round)
  }

  /** Running: no answer yet. Clear: has_cycle is false. WouldCycle: has_cycle is true. */
  datatype Reply = Running | Clear | WouldCycle

  /** What the query has answered after some rounds. */
  function Answer(edges: seq<Edge>, parent: nat, child: nat, rounds: nat): Reply {
    if rounds == 0 then Running
    else
      var before := Answer(edges, parent, child, rounds - 1);
      var table := Descendants(edges, child, rounds - 1);
      if before != Running then before
      else if table == [] then Clear
      else if parent in table then WouldCycle
      else Running
  }

  /** Enough rounds for any answer the query will ever give (see AnswersInTime). */
  function RoundBound(edges: seq<Edge>): nat {
    |Children(edges)| + 1
  }

  /** A cycle the recursion runs into when it starts at `child`. */
  ghost predicate CycleBelow(edges: seq<Edge>, child: nat) {
    exists v :: (v == child || Reaches(SupplierArcs(edges), child, v)) && Reaches(SupplierArcs(edges), v, v)
  }

  lemma {:induction false} InBelow1(edges: seq<Edge>, s: nat, y: nat)
    ensures y in Below1(edges, s) <==> Arc(SupplierArcs(edges), s, y)
  {
    if edges != [] {
      InBelow1(edges[1..], s, y);
      assert forall e :: e in edges <==> e == edges[0] || e in edges[1..];
      if Arc(SupplierArcs(edges), s, y) {
        var e := ArcHasEdge(edges, s, y);
        if e in edges[1..] {
          EdgeIsArc(edges[1..], e);
        }
      }
      if Arc(SupplierArcs(edges[1..]), s, y) {
        var e := ArcHasEdge(edges[1..], s, y);
        EdgeIsArc(edges, e);
      }
    }
  }

  ghost predicate WalkDown(edges: seq<Edge>, w: seq<nat>, child: nat, round: nat, y: nat) {
    WalkBetween(SupplierArcs(edges), w, child, y) && |w| == round + 2
  }

  lemma StepDown(edges: seq<Edge>, child: nat, round: nat, y: nat) returns (x: nat)
    requires round > 0 && y in Descendants(edges, child, round)
    ensures x in Descendants(edges, child, round - 1) && Arc(SupplierArcs(edges), x, y)
  {
    InNext(Step(edges), Descendants(edges, child, round - 1), y);
    x :| x in Descendants(edges, child, round - 1) && y in Step(edges)(x);
    InBelow1(edges, x, y);
  }

  lemma StepFound(edges: seq<Edge>, child: nat, round: nat, x: nat, y: nat)
    requires round > 0 && x in Descendants(edges, child, round - 1) && Arc(SupplierArcs(edges), x, y)
    ensures y in Descendants(edges, child, round)
  {
    InBelow1(edges, x, y);
    assert y in Step(edges)(x);
    InNext(Step(edges), Descendants(edges, child, round - 1), y);
  }

  /** Round k of the query holds the suppliers at the end of a walk of k + 1 arcs from the child. */
  lemma {:induction false} DescendantsAreWalks(edges: seq<Edge>, child: nat, round: nat, y: nat)
    ensures y in Descendants(edges, child, round) <==> exists w :: WalkDown(edges, w, child, round, y)
    decreases round
  {
    hide Descendants;
    var g := SupplierArcs(edges);
    if round == 0 {
      FirstRound(edges, child, y);
    } else {
      if y in Descendants(edges, child, round) {
        var x := StepDown(edges, child, round, y);
        DescendantsAreWalks(edges, child, round - 1, x);
        var w :| WalkDown(edges, w, child, round - 1, x);
        ExtendWalk(g, w, y);
        assert WalkDown(edges, w + [y], child, round, y);
      }
      if w :| WalkDown(edges, w, child, round, y) {
        SubWalk(g, w, 0, round + 1);
        assert WalkDown(edges, w[..round + 1], child, round - 1, w[round]);
        DescendantsAreWalks(edges, child, round - 1, w[round]);
        assert Arc(g, w[round], w[round + 1]);
        StepFound(edges, child, round, w[round], y);
      }
    }
  }

  lemma FirstRound(edges: seq<Edge>, child: nat, y: nat)
    ensures y in Descendants(edges, child, 0) <==> exists w :: WalkDown(edges, w, child, 0, y)
  {
    InBelow1(edges, child, y);
    if Arc(SupplierArcs(edges), child, y) {
      assert WalkDown(edges, [child, y], child, 0, y);
    }
    if w :| WalkDown(edges, w, child, 0, y) {
      assert Arc(SupplierArcs(edges), w[0], w[1]);
    }
  }

  lemma {:induction false} CycleMeansMet(edges: seq<Edge>, parent: nat, child: nat, rounds: nat) returns (k: nat)
    requires Answer(edges, parent, child, rounds) == WouldCycle
    ensures k < rounds && parent in Descendants(edges, child, k)
  {
    if Answer(edges, parent, child, rounds - 1) != Running {
      k := CycleMeansMet(edges, parent, child, rounds - 1);
    } else {
      k := rounds - 1;
    }
  }

  lemma {:induction false} ClearMeansExhausted(edges: seq<Edge>, parent: nat, child: nat, rounds: nat)
      returns (k: nat)
    requires Answer(edges, parent, child, rounds) == Clear
    ensures k < rounds && Descendants(edges, child, k) == [] && Answer(edges, parent, child, k) == Running
  {
    if Answer(edges, parent, child, rounds - 1) != Running {
      k := ClearMeansExhausted(edges, parent, child, rounds - 1);
    } else {
      k := rounds - 1;
    }
  }

  lemma {:induction false} RunningMeansNeither(edges: seq<Edge>, parent: nat, child: nat, rounds: nat, k: nat)
    requires Answer(edges, parent, child, rounds) == Running && k < rounds
    ensures Descendants(edges, child, k) != [] && parent !in Descendants(edges, child, k)
  {
    if k < rounds - 1 {
      RunningMeansNeither(edges, parent, child, rounds - 1, k);
    }
  }

  lemma {:induction false} AnswerLasts(edges: seq<Edge>, parent: nat, child: nat, k: nat, n: nat)
    requires k <= n && Answer(edges, parent, child, k) != Running
    ensures Answer(edges, parent, child, n) == Answer(edges, parent, child, k)
    decreases n - k
  {
    if k < n {
      AnswerLasts(edges, parent, child, k, n - 1);
    }
  }

  lemma RepeatBelow(edges: seq<Edge>, child: nat, w: seq<nat>, i: nat, j: nat)
    requires IsWalk(SupplierArcs(edges), w) && w[0] == child && i < j < |w| && w[i] == w[j]
    ensures CycleBelow(edges, child)
  {
    RepeatIsCycle(SupplierArcs(edges), w, i, j);
    SubWalk(SupplierArcs(edges), w, 0, i + 1);
  }

  /** Without a cycle below the child every walk down is free of repetitions. */
  lemma NoCycleNoRepeat(edges: seq<Edge>, child: nat, w: seq<nat>)
    requires !CycleBelow(edges, child) && IsWalk(SupplierArcs(edges), w) && w[0] == child
    ensures Distinct(w)
  {
    forall i, j | 0 <= i < j < |w| ensures w[i] != w[j] {
      if w[i] == w[j] {
        RepeatBelow(edges, child, w, i, j);
      }
    }
  }

  lemma TargetsAreChildren(edges: seq<Edge>)
    ensures |Targets(SupplierArcs(edges))| <= |Children(edges)|
  {
    forall x | x in Targets(SupplierArcs(edges)) ensures x in Children(edges) {
      var a :| a in SupplierArcs(edges) && a.1 == x;
      var e := ArcHasEdge(edges, a.0, a.1);
    }
    SubsetSize(Targets(SupplierArcs(edges)), Children(edges));
  }

  lemma EmptyWithoutCycle(edges: seq<Edge>, child: nat)
    requires !CycleBelow(edges, child)
    ensures Descendants(edges, child, |Children(edges)|) == []
  {
    var n := |Children(edges)|;
    if Descendants(edges, child, n) != [] {
      var y := Descendants(edges, child, n)[0];
      DescendantsAreWalks(edges, child, n, y);
      var w :| WalkDown(edges, w, child, n, y);
      NoCycleNoRepeat(edges, child, w);
      DistinctWalkIsShort(SupplierArcs(edges), w);
      TargetsAreChildren(edges);
      assert false;
    }
  }

  /** A closed walk can be followed for any number of arcs. */
  lemma {:induction false} GoRound(g: Arcs, w: seq<nat>, n: nat) returns (u: seq<nat>)
    requires IsWalk(g, w) && |w| >= 2 && w[0] == w[|w| - 1]
    ensures IsWalk(g, u) && u[0] == w[0] && |u| == n + 1
  {
    if n + 1 <= |w| {
      u := w[..n + 1];
    } else {
      var rest := GoRound(g, w, n + 1 - |w|);
      JoinWalks(g, w, rest);
      u := w + rest[1..];
    }
  }

  lemma NeverEmptyAboveCycle(edges: seq<Edge>, child: nat, round: nat)
    requires CycleBelow(edges, child)
    ensures Descendants(edges, child, round) != []
  {
    var g := SupplierArcs(edges);
    var v :| (v == child || Reaches(g, child, v)) && Reaches(g, v, v);
    var loop :| WalkBetween(g, loop, v, v) && |loop| >= 2;
    var u := GoRound(g, loop, round + 1);
    if v != child {
      var down :| WalkBetween(g, down, child, v) && |down| >= 2;
      JoinWalks(g, down, u);
      u := down + u[1..];
    }
    SubWalk(g, u, 0, round + 2);
    assert WalkDown(edges, u[..round + 2], child, round, u[round + 1]);
    DescendantsAreWalks(edges, child, round, u[round + 1]);
  }

  lemma ReachedInSomeRound(edges: seq<Edge>, child: nat, parent: nat)
    ensures Reaches(SupplierArcs(edges), child, parent)
            <==> exists k: nat :: parent in Descendants(edges, child, k)
  {
    var g := SupplierArcs(edges);
    if Reaches(g, child, parent) {
      var w :| WalkBetween(g, w, child, parent) && |w| >= 2;
      assert WalkDown(edges, w, child, |w| - 2, parent);
      DescendantsAreWalks(edges, child, |w| - 2, parent);
    }
    if k: nat :| parent in Descendants(edges, child, k) {
      DescendantsAreWalks(edges, child, k, parent);
      var w :| WalkDown(edges, w, child, k, parent);
      assert WalkBetween(g, w, child, parent);
    }
  }

  /** A target that can be reached at all is met within the round bound. */
  lemma ReachedInTime(edges: seq<Edge>, child: nat, parent: nat) returns (k: nat)
    requires Reaches(SupplierArcs(edges), child, parent)
    ensures k < RoundBound(edges) && parent in Descendants(edges, child, k)
  {
    var g := SupplierArcs(edges);
    var w :| WalkBetween(g, w, child, parent) && |w| >= 2;
    var first := w[1];
    SubWalk(g, w, 1, |w|);
    var s := Simplify(g, w[1..]);
    DistinctWalkIsShort(g, s);
    TargetsAreChildren(edges);
    assert Arc(g, child, s[0]);
    PrependWalk(g, child, s);
    assert WalkDown(edges, [child] + s, child, |s| - 1, parent);
    k := |s| - 1;
    DescendantsAreWalks(edges, child, k, parent);
  }

  lemma AnswerIfReached(edges: seq<Edge>, parent: nat, child: nat)
    requires Reaches(SupplierArcs(edges), child, parent)
    ensures Answer(edges, parent, child, RoundBound(edges)) == WouldCycle
  {
    var n := RoundBound(edges);
    var k := ReachedInTime(edges, child, parent);
    if Answer(edges, parent, child, n) == Running {
      RunningMeansNeither(edges, parent, child, n, k);
    } else if Answer(edges, parent, child, n) == Clear {
      var j := ClearMeansExhausted(edges, parent, child, n);
      if j <= k {
        StaysEmpty(Below1(edges, child), Step(edges), j, k);
      } else {
        RunningMeansNeither(edges, parent, child, j, k);
      }
    }
  }

  lemma CycleOnlyIfReached(edges: seq<Edge>, parent: nat, child: nat, rounds: nat)
    requires Answer(edges, parent, child, rounds) == WouldCycle
    ensures Reaches(SupplierArcs(edges), child, parent)
  {
    var k := CycleMeansMet(edges, parent, child, rounds);
    ReachedInSomeRound(edges, child, parent);
  }

  lemma ClearOnlyIfExhausted(edges: seq<Edge>, parent: nat, child: nat, rounds: nat)
    requires Answer(edges, parent, child, rounds) == Clear
    ensures !CycleBelow(edges, child)
  {
    var k := ClearMeansExhausted(edges, parent, child, rounds);
    if CycleBelow(edges, child) {
      NeverEmptyAboveCycle(edges, child, k);
    }
  }

  /**
   What the pre-check answers, on any table: WouldCycle iff the child reaches the parent; Clear iff it
   does not and no cycle lies below the child. In the remaining case, parent out of reach and a cycle
   below the child, the query never ends.
   */
  lemma PrecheckIsExact(edges: seq<Edge>, parent: nat, child: nat)
    ensures Answer(edges, parent, child, RoundBound(edges)) == WouldCycle
            <==> Reaches(SupplierArcs(edges), child, parent)
    ensures Answer(edges, parent, child, RoundBound(edges)) == Clear
            <==> !Reaches(SupplierArcs(edges), child, parent) && !CycleBelow(edges, child)
  {
    var n := RoundBound(edges);
    if Reaches(SupplierArcs(edges), child, parent) {
      AnswerIfReached(edges, parent, child);
    } else {
      if Answer(edges, parent, child, n) == WouldCycle {
        CycleOnlyIfReached(edges, parent, child, n);
      }
      if Answer(edges, parent, child, n) == Clear {
        ClearOnlyIfExhausted(edges, parent, child, n);
      }
      if !CycleBelow(edges, child) {
        EmptyWithoutCycle(edges, child);
        if Answer(edges, parent, child, n) == Running {
          RunningMeansNeither(edges, parent, child, n, |Children(edges)|);
        }
      }
    }
  }

  /** More rounds than the bound never bring an answer: Running at the bound means the query hangs. */
  lemma AnswersInTime(edges: seq<Edge>, parent: nat, child: nat, rounds: nat)
    requires Answer(edges, parent, child, rounds) != Running
    ensures Answer(edges, parent, child, RoundBound(edges)) == Answer(edges, parent, child, rounds)
  {
    var n := RoundBound(edges);
    PrecheckIsExact(edges, parent, child);
    if rounds <= n {
      AnswerLasts(edges, parent, child, rounds, n);
    } else {
      if Answer(edges, parent, child, rounds) == WouldCycle {
        CycleOnlyIfReached(edges, parent, child, rounds);
      } else if !Reaches(SupplierArcs(edges), child, parent) {
        ClearOnlyIfExhausted(edges, parent, child, rounds);
      }
      AnswerLasts(edges, parent, child, n, rounds);
    }
  }

  /** On an acyclic graph the query always ends, with the right answer. */
  lemma AcyclicAnswers(edges: seq<Edge>, parent: nat, child: nat)
    requires Acyclic(SupplierArcs(edges))
    ensures Answer(edges, parent, child, RoundBound(edges))
            == if Reaches(SupplierArcs(edges), child, parent) then WouldCycle else Clear
  {
    PrecheckIsExact(edges, parent, child);
    assert !CycleBelow(edges, child);
  }
}
