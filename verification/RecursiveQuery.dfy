/**
 `WITH RECURSIVE t AS (anchor UNION ALL step)` the way PostgreSQL evaluates it: the first working
 table holds the anchor rows; each round applies the recursive term to every row of the working
 table; the rows of all rounds are appended, and the query stops at the first empty working table.
 The recursive terms of the modelled queries join one edge or part to one row at a time, so a term
 is given by the rows it makes from a single row.
 */
module RecursiveQuery {

  /** The recursive term applied to a whole working table. */
  function Next<R, S>(step: R -> seq<S>, rows: seq<R>): seq<S> {
    if rows == [] then [] else step(rows[0]) + Next(step, rows[1..])
  }

  function WorkTable<R>(anchor: seq<R>, step: R -> seq<R>, round: nat): seq<R> {
    if round == 0 then anchor else Next(step, WorkTable(anchor, step, round - 1))
  }

  /** The rows appended in the first `rounds` rounds. */
  function Accumulated<R>(anchor: seq<R>, step: R -> seq<R>, rounds: nat): seq<R> {
    if rounds == 0 then []
    else Accumulated(anchor, step, rounds - 1) + WorkTable(anchor, step, rounds - 1)
  }

  lemma {:induction false} InNext<R, S>(step: R -> seq<S>, rows: seq<R>, y: S)
    ensures y in Next(step, rows) <==> exists x :: x in rows && y in step(x)
  {
    if rows != [] {
      InNext(step, rows[1..], y);
      assert rows == [rows[0]] + rows[1..];
      if y in step(rows[0]) {
        assert rows[0] in rows;
      }
    }
  }

  lemma {:induction false} RoundIsKept<R>(anchor: seq<R>, step: R -> seq<R>, rounds: nat, k: nat, y: R)
    requires k < rounds && y in WorkTable(anchor, step, k)
    ensures y in Accumulated(anchor, step, rounds)
  {
    hide WorkTable, Next;
    if k < rounds - 1 {
      RoundIsKept(anchor, step, rounds - 1, k, y);
    }
  }

  lemma {:induction false} RoundOf<R>(anchor: seq<R>, step: R -> seq<R>, rounds: nat, y: R) returns (k: nat)
    requires y in Accumulated(anchor, step, rounds)
    ensures k < rounds && y in WorkTable(anchor, step, k)
  {
    hide WorkTable, Next;
    if y in WorkTable(anchor, step, rounds - 1) {
      k := rounds - 1;
    } else {
      k := RoundOf(anchor, step, rounds - 1, y);
    }
  }

  lemma {:induction false} StaysEmpty<R>(anchor: seq<R>, step: R -> seq<R>, k: nat, n: nat)
    requires k <= n && WorkTable(anchor, step, k) == []
    ensures WorkTable(anchor, step, n) == []
    decreases n - k
  {
    if k < n {
      StaysEmpty(anchor, step, k, n - 1);
    }
  }

  /** Once a working table is empty, further rounds add nothing: the query has its answer. */
  lemma {:induction false} ResultIsStable<R>(anchor: seq<R>, step: R -> seq<R>, k: nat, n: nat)
    requires k <= n && WorkTable(anchor, step, k) == []
    ensures Accumulated(anchor, step, n) == Accumulated(anchor, step, k)
    decreases n - k
  {
    if k < n {
      ResultIsStable(anchor, step, k, n - 1);
      StaysEmpty(anchor, step, k, n - 1);
    }
  }
}
