/** Finite directed graphs: walks, shortcuts, acyclicity. Vertices are row identifiers. */
module Digraph {
  import opened Common

  type Arcs = set<(nat, nat)>

  ghost predicate Arc(g: Arcs, a: nat, b: nat) {
    (a, b) in g
  }

  ghost predicate IsWalk(g: Arcs, w: seq<nat>) {
    |w| >= 1 && forall i, j {:trigger w[i], w[j]} :: 0 <= i && j == i + 1 && j < |w| ==> Arc(g, w[i], w[j])
  }

  ghost predicate WalkBetween(g: Arcs, w: seq<nat>, a: nat, b: nat) {
    IsWalk(g, w) && w[0] == a && w[|w| - 1] == b
  }

  /** b can be reached from a along one arc or more. */
  ghost predicate Reaches(g: Arcs, a: nat, b: nat) {
    exists w :: WalkBetween(g, w, a, b) && |w| >= 2
  }

  ghost predicate Acyclic(g: Arcs) {
    forall v :: !Reaches(g, v, v)
  }

  lemma WalkNeedsArc(g: Arcs, w: seq<nat>)
    requires IsWalk(g, w) && |w| >= 2
    ensures g != {}
  {
    assert Arc(g, w[0], w[1]);
  }

  lemma EmptyIsAcyclic()
    ensures Acyclic({})
  {
    forall v: nat ensures !Reaches({}, v, v) {
      if w: seq<nat> :| WalkBetween({}, w, v, v) && |w| >= 2 {
        WalkNeedsArc({}, w);
      }
    }
  }

  lemma JoinWalks(g: Arcs, u: seq<nat>, w: seq<nat>)
    requires IsWalk(g, u) && IsWalk(g, w) && u[|u| - 1] == w[0]
    ensures WalkBetween(g, u + w[1..], u[0], w[|w| - 1])
  {
    var x := u + w[1..];
    forall i, j | 0 <= i && j == i + 1 && j < |x| ensures Arc(g, x[i], x[j]) {
      if i >= |u| - 1 {
        assert x[i] == w[i - |u| + 1] && x[j] == w[j - |u| + 1];
      } else {
        assert x[i] == u[i] && x[j] == u[j];
      }
    }
  }

  lemma ReachesTransitive(g: Arcs, a: nat, b: nat, c: nat)
    requires Reaches(g, a, b) && Reaches(g, b, c)
    ensures Reaches(g, a, c)
  {
    var u :| WalkBetween(g, u, a, b) && |u| >= 2;
    var w :| WalkBetween(g, w, b, c) && |w| >= 2;
    JoinWalks(g, u, w);
  }

  lemma ArcReaches(g: Arcs, a: nat, b: nat)
    requires Arc(g, a, b)
    ensures Reaches(g, a, b)
  {
    assert WalkBetween(g, [a, b], a, b);
  }

  lemma SubWalk(g: Arcs, w: seq<nat>, i: nat, j: nat)
    requires IsWalk(g, w) && i < j <= |w|
    ensures WalkBetween(g, w[i..j], w[i], w[j - 1])
  {
  }

  /** Cutting the loop between two visits of one vertex leaves a walk with the same ends. */
  lemma CutLoop(g: Arcs, w: seq<nat>, i: nat, j: nat)
    requires IsWalk(g, w) && i < j < |w| && w[i] == w[j]
    ensures WalkBetween(g, w[..i] + w[j..], w[0], w[|w| - 1])
  {
    SubWalk(g, w, 0, i + 1);
    SubWalk(g, w, j, |w|);
    JoinWalks(g, w[..i + 1], w[j..]);
    assert w[..i + 1] + w[j..][1..] == w[..i] + w[j..];
  }

  /** Every walk shortens to one that visits no vertex twice. */
  lemma {:induction false} Simplify(g: Arcs, w: seq<nat>) returns (s: seq<nat>)
    requires IsWalk(g, w)
    ensures WalkBetween(g, s, w[0], w[|w| - 1]) && Distinct(s) && |s| <= |w|
    decreases |w|
  {
    if Distinct(w) {
      s := w;
    } else {
      var i, j :| 0 <= i < j < |w| && w[i] == w[j];
      CutLoop(g, w, i, j);
      s := Simplify(g, w[..i] + w[j..]);
    }
  }

  /** A walk that repeats a vertex passes through a cycle. */
  lemma RepeatIsCycle(g: Arcs, w: seq<nat>, i: nat, j: nat)
    requires IsWalk(g, w) && i < j < |w| && w[i] == w[j]
    ensures Reaches(g, w[i], w[i])
  {
    SubWalk(g, w, i, j + 1);
  }

  lemma AcyclicWalksAreDistinct(g: Arcs, w: seq<nat>)
    requires Acyclic(g) && IsWalk(g, w)
    ensures Distinct(w)
  {
    forall i, j | 0 <= i < j < |w| ensures w[i] != w[j] {
      if w[i] == w[j] {
        RepeatIsCycle(g, w, i, j);
      }
    }
  }

  function Targets(g: Arcs): set<nat> {
    set a | a in g :: a.1
  }

  lemma WalkStaysInTargets(g: Arcs, w: seq<nat>, k: nat)
    requires IsWalk(g, w) && 0 < k < |w|
    ensures w[k] in Targets(g)
  {
    assert Arc(g, w[k - 1], w[k]);
    assert (w[k - 1], w[k]) in g;
  }

  /** A walk without repetitions is bounded by the number of vertices it can enter. */
  lemma DistinctWalkIsShort(g: Arcs, w: seq<nat>)
    requires IsWalk(g, w) && Distinct(w)
    ensures |w| <= |Targets(g)| + 1
  {
    var rest := w[1..];
    forall x | x in rest ensures x in Targets(g) {
      var k :| 0 <= k < |rest| && rest[k] == x;
      WalkStaysInTargets(g, w, k + 1);
    }
    DistinctFits(rest, Targets(g));
  }

  /** Arcs only ever add walks. */
  lemma MoreArcs(g: Arcs, h: Arcs, a: nat, b: nat)
    requires g <= h && Reaches(g, a, b)
    ensures Reaches(h, a, b)
  {
    var w :| WalkBetween(g, w, a, b) && |w| >= 2;
    assert WalkBetween(h, w, a, b);
  }

  /** A walk that avoids the new arc after position i is a walk of the old graph from there on. */
  lemma {:induction false} LastUse(g: Arcs, p: nat, c: nat, w: seq<nat>) returns (t: seq<nat>)
    requires IsWalk(g + {(p, c)}, w) && !IsWalk(g, w)
    ensures WalkBetween(g, t, c, w[|w| - 1])
    decreases |w|
  {
    assert exists i :: 0 <= i < |w| - 1 && !Arc(g, w[i], w[i + 1]);
    var i :| 0 <= i < |w| - 1 && !Arc(g, w[i], w[i + 1]);
    assert Arc(g + {(p, c)}, w[i], w[i + 1]);
    var rest := w[i + 1..];
    SubWalk(g + {(p, c)}, w, i + 1, |w|);
    if IsWalk(g, rest) {
      t := rest;
    } else {
      t := LastUse(g, p, c, rest);
    }
  }

  lemma {:induction false} FirstUse(g: Arcs, p: nat, c: nat, w: seq<nat>) returns (t: seq<nat>)
    requires IsWalk(g + {(p, c)}, w) && !IsWalk(g, w)
    ensures WalkBetween(g, t, w[0], p)
    decreases |w|
  {
    assert exists i :: 0 <= i < |w| - 1 && !Arc(g, w[i], w[i + 1]);
    var i :| 0 <= i < |w| - 1 && !Arc(g, w[i], w[i + 1]);
    assert Arc(g + {(p, c)}, w[i], w[i + 1]);
    var front := w[..i + 1];
    SubWalk(g + {(p, c)}, w, 0, i + 1);
    if IsWalk(g, front) {
      t := front;
    } else {
      t := FirstUse(g, p, c, front);
    }
  }

  /** A cycle of the larger graph was there before, or closes through the new arc. */
  lemma NewCycle(g: Arcs, p: nat, c: nat)
    requires !Acyclic(g + {(p, c)})
    ensures !Acyclic(g) || p == c || Reaches(g, c, p)
  {
    var h := g + {(p, c)};
    var v :| Reaches(h, v, v);
    var w :| WalkBetween(h, w, v, v) && |w| >= 2;
    if IsWalk(g, w) {
      assert WalkBetween(g, w, v, v);
      assert Reaches(g, v, v);
    } else {
      var tail := LastUse(g, p, c, w);
      var head := FirstUse(g, p, c, w);
      JoinWalks(g, tail, head);
      assert WalkBetween(g, tail + head[1..], c, p);
    }
  }

  /** Adding one arc keeps a graph acyclic exactly when the arc is no loop and its target does not
      already reach its source. */
  lemma AddArcKeepsAcyclicIff(g: Arcs, p: nat, c: nat)
    requires Acyclic(g)
    ensures Acyclic(g + {(p, c)}) <==> p != c && !Reaches(g, c, p)
  {
    var h := g + {(p, c)};
    assert Arc(h, p, c);
    ArcReaches(h, p, c);
    if Reaches(g, c, p) {
      MoreArcs(g, h, c, p);
      ReachesTransitive(h, p, c, p);
    }
    if !Acyclic(h) {
      NewCycle(g, p, c);
    }
  }

  lemma FewerArcsStayAcyclic(g: Arcs, h: Arcs)
    requires g <= h && Acyclic(h)
    ensures Acyclic(g)
  {
    forall v ensures !Reaches(g, v, v) {
      if Reaches(g, v, v) {
        MoreArcs(g, h, v, v);
      }
    }
  }

  /** What lies strictly below a vertex. */
  ghost function Below(g: Arcs, a: nat): set<nat> {
    set b | b in Targets(g) && Reaches(g, a, b)
  }

  /** In an acyclic graph the size of `Below` drops along every arc, which makes it a measure for
      recursion over children. */
  lemma BelowShrinks(g: Arcs, a: nat, b: nat)
    requires Acyclic(g) && Arc(g, a, b)
    ensures |Below(g, b)| < |Below(g, a)|
  {
    ArcReaches(g, a, b);
    assert (a, b) in g;
    assert b in Below(g, a) && b !in Below(g, b);
    forall x | x in Below(g, b) ensures x in Below(g, a) - {b} {
      ReachesTransitive(g, a, b, x);
    }
    assert Below(g, b) <= Below(g, a) - {b};
    SubsetSize(Below(g, b), Below(g, a) - {b});
  }
}
