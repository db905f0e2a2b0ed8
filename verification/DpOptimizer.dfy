/** Choosing a cache utilisation for every time step at the least total cost. Bins are tried
    at every step; between steps the choice may move by one bin, or by two when the bin
    between has no data, and only at decision steps. */
module DpOptimizer {
  import opened Counting

  /** cost[k][t] is the cost of bin k at step t; from `inf` on it means there is no data. */
  datatype Grid = Grid(cost: seq<seq<real>>, steps: nat, interval: nat, inf: real)

  ghost predicate GridOk(g: Grid) {
    && g.steps > 0 && g.interval > 0 && g.inf > 0.0
    && (forall k :: 0 <= k < |g.cost| ==> |g.cost[k]| == g.steps)
    && (forall k, t :: 0 <= k < |g.cost| && 0 <= t < g.steps ==> Cost(g, k, t) >= 0.0)
  }

  ghost function Cost(g: Grid, k: nat, t: nat): real {
    if k < |g.cost| && t < |g.cost[k]| then g.cost[k][t] else 0.0
  }

  /** The choice may go from bin j at step t - 1 to bin k at step t. */
  ghost predicate Move(g: Grid, t: nat, j: nat, k: nat)
    requires t > 0 && g.interval > 0
  {
    if t % g.interval != 0 then j == k
    else j <= k + 2 && k <= j + 2 && (j == k + 2 ==> NoData(g, k + 1, t - 1)) && (k == j + 2 ==> NoData(g, j + 1, t - 1))
  }

  ghost predicate NoData(g: Grid, k: nat, t: nat) { Cost(g, k, t) >= g.inf * 0.5 }

  /** A choice of bins for the first steps that makes only allowed moves. */
  ghost predicate Admissible(g: Grid, path: seq<nat>)
    requires g.interval > 0
  {
    && (forall t :: 0 <= t < |path| ==> path[t] < |g.cost|)
    && (forall t :: 0 < t < |path| ==> Move(g, t, path[t - 1], path[t]))
  }

  /** The cost of the first n steps of a path. */
  ghost function PathCost(g: Grid, path: seq<nat>, n: nat): real
    requires n <= |path|
  {
    if n == 0 then 0.0 else PathCost(g, path, n - 1) + Cost(g, path[n - 1], n - 1)
  }

  /** Every step has been assigned a bin. */
  ghost predicate Plan(g: Grid, path: seq<nat>)
    requires g.interval > 0
  {
    |path| == g.steps && Admissible(g, path)
  }

  lemma PathCostGrows(g: Grid, path: seq<nat>, n: nat)
    requires GridOk(g) && Admissible(g, path) && 0 < n <= |path| <= g.steps
    ensures PathCost(g, path, n - 1) <= PathCost(g, path, n)
  {
    assert Cost(g, path[n - 1], n - 1) >= 0.0;
  }

  /** The tables row by row: a value and a parent for each bin. */
  datatype Row = Row(value: seq<real>, parent: seq<int>)

  /** The value comes from bin j of the previous step. */
  ghost predicate Source(g: Grid, prev: Row, t: nat, k: nat, value: real, j: int)
    requires g.interval > 0 && t > 0
  {
    0 <= j < |g.cost| && j < |prev.value| && Move(g, t, j, k) && value == prev.value[j] + Cost(g, k, t)
  }

  /** Bin j of the previous step offers nothing better, unless nothing finite at all. */
  ghost predicate NotBeaten(g: Grid, prev: Row, t: nat, k: nat, value: real, j: nat)
    requires j < |prev.value|
  {
    value <= prev.value[j] + Cost(g, k, t) || prev.value[j] + Cost(g, k, t) >= g.inf
  }

  ghost predicate CellOk(g: Grid, prev: Row, t: nat, k: nat, value: real, arg: int)
    requires g.interval > 0 && t > 0 && |prev.value| == |g.cost|
  {
    && (value < g.inf ==> Source(g, prev, t, k, value, arg))
    && (forall j :: 0 <= j < |g.cost| && Move(g, t, j, k) ==> NotBeaten(g, prev, t, k, value, j))
  }

  ghost predicate Shaped(g: Grid, row: Row) { |row.value| == |row.parent| == |g.cost| }

  ghost predicate FirstRow(g: Grid, row: Row) {
    Shaped(g, row) && forall k :: 0 <= k < |g.cost| ==> row.value[k] == Cost(g, k, 0)
  }

  /** Row t is what row t - 1 allows. */
  ghost predicate RowOk(g: Grid, prev: Row, row: Row, t: nat)
    requires g.interval > 0 && t > 0
  {
    && Shaped(g, prev) && Shaped(g, row)
    && forall k :: 0 <= k < |g.cost| ==> CellOk(g, prev, t, k, row.value[k], row.parent[k])
  }

  ghost predicate Rows(g: Grid, rows: seq<Row>, n: nat)
    requires g.interval > 0
  {
    && 0 < n <= |rows| == g.steps && (forall t :: 0 <= t < |rows| ==> Shaped(g, rows[t]))
    && FirstRow(g, rows[0]) && forall t :: 0 < t < n ==> RowOk(g, rows[t - 1], rows[t], t)
  }

  lemma CellAt(g: Grid, rows: seq<Row>, n: nat, t: nat, k: nat)
    requires g.interval > 0 && Rows(g, rows, n) && t < n && k < |g.cost|
    ensures Shaped(g, rows[t])
    ensures t == 0 ==> rows[0].value[k] == Cost(g, k, 0)
    ensures t > 0 ==> Shaped(g, rows[t - 1]) && CellOk(g, rows[t - 1], t, k, rows[t].value[k], rows[t].parent[k])
  {}

  /** No admissible path of finite cost beats the table. */
  lemma {:induction false} TableIsLower(g: Grid, rows: seq<Row>, path: seq<nat>, n: nat)
    requires GridOk(g) && Rows(g, rows, g.steps) && Admissible(g, path) && 0 < n <= |path| <= g.steps
    requires PathCost(g, path, n) < g.inf
    ensures path[n - 1] < |rows[n - 1].value| && rows[n - 1].value[path[n - 1]] <= PathCost(g, path, n)
  {
    CellAt(g, rows, g.steps, n - 1, path[n - 1]);
    if n > 1 {
      PathCostGrows(g, path, n);
      TableIsLower(g, rows, path, n - 1);
      assert Move(g, n - 1, path[n - 2], path[n - 1]);
      assert NotBeaten(g, rows[n - 2], n - 1, path[n - 1], rows[n - 1].value[path[n - 1]], path[n - 2]);
    } else {
      assert PathCost(g, path, 0) == 0.0;
    }
  }

  lemma {:induction false} TableNonNegative(g: Grid, rows: seq<Row>, t: nat, k: nat)
    requires GridOk(g) && Rows(g, rows, g.steps) && t < g.steps && k < |g.cost|
    ensures k < |rows[t].value| && rows[t].value[k] >= 0.0
  {
    CellAt(g, rows, g.steps, t, k);
    assert Cost(g, k, t) >= 0.0;
    if t > 0 && rows[t].value[k] < g.inf {
      TableNonNegative(g, rows, t - 1, rows[t].parent[k]);
    }
  }

  /** The cost of the steps from t on. */
  ghost function TailCost(g: Grid, path: seq<nat>, t: nat): real
    requires t <= |path|
    decreases |path| - t
  {
    if t == |path| then 0.0 else Cost(g, path[t], t) + TailCost(g, path, t + 1)
  }

  lemma {:induction false} TailIsRest(g: Grid, path: seq<nat>, t: nat)
    requires t <= |path|
    ensures PathCost(g, path, t) + TailCost(g, path, t) == PathCost(g, path, |path|)
    decreases |path| - t
  {
    if t < |path| { TailIsRest(g, path, t + 1); }
  }

  lemma {:induction false} TailSame(g: Grid, p: seq<nat>, q: seq<nat>, t: nat)
    requires |p| == |q| && t <= |p| && forall i :: t <= i < |p| ==> p[i] == q[i]
    ensures TailCost(g, p, t) == TailCost(g, q, t)
    decreases |p| - t
  {
    if t < |p| { TailSame(g, p, q, t + 1); }
  }

  // ---- the program ----

  lemma MoveWindow(g: Grid, t: nat, k: nat)
    requires GridOk(g) && t > 0 && t % g.interval == 0
    ensures forall j: nat :: Move(g, t, j, k) ==> j <= k + 2 && k <= j + 2
  {}

  /** Inside the window all but the long moves over data are allowed. */
  lemma MoveHere(g: Grid, t: nat, j: nat, k: nat)
    requires GridOk(g) && 0 < t < g.steps && t % g.interval == 0 && j < |g.cost| && k < |g.cost| && j <= k + 2 && k <= j + 2
    ensures Move(g, t, j, k) <==>
              !((j == k + 2 || k == j + 2) && g.cost[(j + k) / 2][t - 1] < g.inf * 0.5)
    ensures Cost(g, k, t) == g.cost[k][t]
  {}

  /** The best source of one cell at a decision step, in a window of five bins. */
  method BestSource(g: Grid, prev: Row, t: nat, k: nat) returns (best: real, arg: int)
    requires GridOk(g) && Shaped(g, prev) && 0 < t < g.steps && k < |g.cost| && t % g.interval == 0
    ensures CellOk(g, prev, t, k, best, arg)
    ensures best < g.inf ==> forall i :: 0 <= i < arg && Move(g, t, i, k) ==> prev.value[i] + Cost(g, k, t) > best
  {
    hide Move, NoData;
    MoveWindow(g, t, k);
    best, arg := g.inf, -1;
    var j := if k >= 2 then k - 2 else 0;
    while j < |g.cost| && j <= k + 2
      invariant 0 <= j <= |g.cost| && best <= g.inf
      invariant best < g.inf ==> Source(g, prev, t, k, best, arg)
      invariant forall i :: 0 <= i < j && Move(g, t, i, k) ==> NotBeaten(g, prev, t, k, best, i)
      invariant arg < j && (best < g.inf ==> forall i :: 0 <= i < arg && Move(g, t, i, k) ==> prev.value[i] + Cost(g, k, t) > best)
    {
      MoveHere(g, t, j, k);
      var dist := if j <= k then k - j else j - k;
      if !(dist == 2 && g.cost[(j + k) / 2][t - 1] < g.inf * 0.5) {
        var cand := prev.value[j] + g.cost[k][t];
        if cand < best {
          best, arg := cand, j;
        }
      }
      j := j + 1;
    }
  }

  /** Fills row t of the tables, which start out with no value and no parent anywhere. */
  method FillRow(g: Grid, rows: array<Row>, t: nat)
    requires GridOk(g) && 0 < t < g.steps && Rows(g, rows[..], t)
    modifies rows
    ensures Rows(g, rows[..], t + 1)
  {
    var canSwitch := t % g.interval == 0;
    ghost var before := rows[..];
    var k := 0;
    while k < |g.cost|
      invariant 0 <= k <= |g.cost| && rows[..] == before[t := rows[t]] && Shaped(g, rows[t])
      invariant forall j :: 0 <= j < k ==> CellOk(g, before[t - 1], t, j, rows[t].value[j], rows[t].parent[j])
    {
      assert rows[t - 1] == before[t - 1];
      var best, arg;
      if canSwitch {
        best, arg := BestSource(g, rows[t - 1], t, k);
      } else {
        best, arg := rows[t - 1].value[k] + g.cost[k][t], k;
        assert Source(g, rows[t - 1], t, k, best, arg);
      }
      rows[t] := Row(rows[t].value[k := best], rows[t].parent[k := arg]);
      k := k + 1;
    }
    RowAdded(g, before, rows[..], t);
  }

  lemma RowAdded(g: Grid, before: seq<Row>, after: seq<Row>, t: nat)
    requires g.interval > 0 && 0 < t < |before| && Rows(g, before, t) && |after| == |before|
    requires after == before[t := after[t]] && RowOk(g, before[t - 1], after[t], t)
    ensures Rows(g, after, t + 1)
  {
    hide RowOk, FirstRow, Shaped;
    RowShaped(g, before[t - 1], after[t], t);
    forall i | 0 < i < t + 1 ensures RowOk(g, after[i - 1], after[i], i) {
      if i < t { assert RowOk(g, before[i - 1], before[i], i); }
    }
  }

  lemma RowShaped(g: Grid, prev: Row, row: Row, t: nat)
    requires g.interval > 0 && t > 0 && RowOk(g, prev, row, t)
    ensures Shaped(g, row)
  {}

  method FillTables(g: Grid) returns (rows: array<Row>)
    requires GridOk(g)
    ensures fresh(rows) && Rows(g, rows[..], g.steps)
  {
    var none := Row(seq(|g.cost|, _ => g.inf), seq(|g.cost|, _ => -1));
    rows := new Row[g.steps](_ => none);
    var k := 0;
    while k < |g.cost|
      invariant 0 <= k <= |g.cost| && forall t :: 0 <= t < g.steps ==> Shaped(g, rows[t])
      invariant forall j :: 0 <= j < k ==> rows[0].value[j] == Cost(g, j, 0)
    {
      rows[0] := rows[0].(value := rows[0].value[k := g.cost[k][0]]);
      k := k + 1;
    }
    var t := 1;
    while t < g.steps
      invariant 1 <= t <= g.steps && Rows(g, rows[..], t)
    {
      FillRow(g, rows, t);
      t := t + 1;
    }
  }

  /** The least value of a row below `inf`, and the first bin that has it. */
  method BestFinal(g: Grid, row: Row) returns (best: real, bestK: int)
    requires Shaped(g, row)
    ensures bestK < 0 ==> best == g.inf
    ensures bestK >= 0 ==> bestK < |g.cost| && row.value[bestK] == best < g.inf
    ensures forall k :: 0 <= k < |g.cost| ==> best <= row.value[k]
    ensures forall k :: 0 <= k < bestK ==> best < row.value[k]
  {
    best, bestK := g.inf, -1;
    var k := 0;
    while k < |g.cost|
      invariant 0 <= k <= |g.cost| && best <= g.inf
      invariant if bestK < 0 then best == g.inf else bestK < k && row.value[bestK] == best < g.inf
      invariant forall j :: 0 <= j < k ==> best <= row.value[j]
      invariant forall j :: 0 <= j < bestK ==> best < row.value[j]
    {
      if row.value[k] < best {
        best, bestK := row.value[k], k;
      }
      k := k + 1;
    }
  }

  /** The backtrack has fixed the bins from step t on, the first of them cur. */
  ghost predicate Traced(g: Grid, rows: seq<Row>, chosen: seq<nat>, t: nat, cur: nat, total: real)
    requires GridOk(g) && Rows(g, rows, g.steps)
  {
    && t < g.steps == |chosen| && cur < |g.cost| && chosen[t] == cur
    && (forall i :: t <= i < g.steps ==> chosen[i] < |g.cost|)
    && (forall i :: t < i < g.steps ==> Move(g, i, chosen[i - 1], chosen[i]))
    && rows[t].value[cur] + TailCost(g, chosen, t + 1) == total && rows[t].value[cur] < g.inf
  }

  lemma TraceStep(g: Grid, rows: seq<Row>, chosen: seq<nat>, t: nat, cur: nat, total: real)
    requires GridOk(g) && Rows(g, rows, g.steps) && 0 < t && Traced(g, rows, chosen, t, cur, total)
    ensures var j := rows[t].parent[cur]; 0 <= j && Traced(g, rows, chosen[t - 1 := j], t - 1, j, total)
  {
    CellAt(g, rows, g.steps, t, cur);
    hide Rows;
    assert Cost(g, cur, t) >= 0.0;
    TailSame(g, chosen, chosen[t - 1 := rows[t].parent[cur]], t);
  }

  lemma TraceDone(g: Grid, rows: seq<Row>, chosen: seq<nat>, cur: nat, total: real)
    requires GridOk(g) && Rows(g, rows, g.steps) && Traced(g, rows, chosen, 0, cur, total)
    ensures Plan(g, chosen) && PathCost(g, chosen, g.steps) == total
  {
    CellAt(g, rows, g.steps, 0, cur);
    TailIsRest(g, chosen, 1);
    assert PathCost(g, chosen, 1) == PathCost(g, chosen, 0) + Cost(g, cur, 0);
  }

  /** Follows the parents back from a final bin with a finite value. */
  method Backtrack(g: Grid, rows: array<Row>, bestK: nat) returns (choice: seq<nat>)
    requires GridOk(g) && Rows(g, rows[..], g.steps) && bestK < |g.cost|
    requires rows[g.steps - 1].value[bestK] < g.inf
    ensures Plan(g, choice) && choice[g.steps - 1] == bestK
    ensures PathCost(g, choice, g.steps) == rows[g.steps - 1].value[bestK]
  {
    hide TailCost;
    ghost var table := rows[..];
    var chosen := new nat[g.steps](_ => 0);
    var cur: nat, t := bestK, g.steps - 1;
    chosen[t] := cur;
    TailNone(g, chosen[..]);
    ghost var total := table[t].value[cur];
    while t > 0
      invariant 0 <= t < g.steps && chosen[g.steps - 1] == bestK && rows[..] == table
      invariant Traced(g, table, chosen[..], t, cur, total)
    {
      TraceStep(g, table, chosen[..], t, cur, total);
      cur := rows[t].parent[cur];
      t := t - 1;
      ghost var was := chosen[..];
      chosen[t] := cur;
      assert chosen[..] == was[t := cur];
    }
    choice := chosen[..];
    TraceDone(g, table, choice, cur, total);
  }

  lemma TailNone(g: Grid, path: seq<nat>)
    ensures TailCost(g, path, |path|) == 0.0
  {}

  /** A move keeps the bin except at decision steps. There it goes by one bin or two, and by
      two only over a bin whose cost one step earlier is at least half of `inf`. */
  lemma MoveMeans(g: Grid, t: nat, j: nat, k: nat)
    requires GridOk(g) && 0 < t < g.steps && j < |g.cost| && k < |g.cost|
    ensures Move(g, t, j, k) <==>
              && (t % g.interval != 0 ==> j == k) && j <= k + 2 && k <= j + 2
              && (j == k + 2 ==> g.cost[k + 1][t - 1] >= g.inf * 0.5)
              && (k == j + 2 ==> g.cost[j + 1][t - 1] >= g.inf * 0.5)
  {}

  /** What a plan is: one bin for every step, from one to the next by such a move. */
  lemma PlanMeans(g: Grid, path: seq<nat>)
    requires GridOk(g)
    ensures Plan(g, path) <==>
              && |path| == g.steps && (forall t :: 0 <= t < g.steps ==> path[t] < |g.cost|)
              && forall t :: 0 < t < g.steps ==>
                               && (t % g.interval != 0 ==> path[t] == path[t - 1])
                               && path[t - 1] <= path[t] + 2 && path[t] <= path[t - 1] + 2
                               && (path[t - 1] == path[t] + 2 ==> g.cost[path[t] + 1][t - 1] >= g.inf * 0.5)
                               && (path[t] == path[t - 1] + 2 ==> g.cost[path[t - 1] + 1][t - 1] >= g.inf * 0.5)
  {
    if |path| == g.steps && forall t :: 0 <= t < g.steps ==> path[t] < |g.cost| {
      forall t: nat | 0 < t < g.steps
        ensures Move(g, t, path[t - 1], path[t]) <==>
                  && (t % g.interval != 0 ==> path[t] == path[t - 1])
                  && path[t - 1] <= path[t] + 2 && path[t] <= path[t - 1] + 2
                  && (path[t - 1] == path[t] + 2 ==> g.cost[path[t] + 1][t - 1] >= g.inf * 0.5)
                  && (path[t] == path[t - 1] + 2 ==> g.cost[path[t - 1] + 1][t - 1] >= g.inf * 0.5)
      {
        MoveMeans(g, t, path[t - 1], path[t]);
      }
    }
  }

  /** What it costs: the sum of the grid's entries along it. */
  lemma PathCostMeans(g: Grid, path: seq<nat>, n: nat)
    requires GridOk(g) && n < |path| <= g.steps && path[n] < |g.cost|
    ensures PathCost(g, path, 0) == 0.0 && PathCost(g, path, n + 1) == PathCost(g, path, n) + g.cost[path[n]][n]
  {}

  /** The cheapest plan, or nothing when no plan has a finite cost. */
  method Optimize(g: Grid) returns (plan: Option<seq<nat>>, best: real)
    requires GridOk(g)
    ensures plan.None? <==> forall p :: Plan(g, p) ==> PathCost(g, p, g.steps) >= g.inf
    ensures plan.Some? ==> Plan(g, plan.value) && PathCost(g, plan.value, g.steps) == best < g.inf
    ensures plan.Some? ==> forall p :: Plan(g, p) ==> PathCost(g, p, g.steps) >= best
  {
    var rows := FillTables(g);
    var last := g.steps - 1;
    var bestK;
    best, bestK := BestFinal(g, rows[last]);
    forall p | Plan(g, p) ensures PathCost(g, p, g.steps) >= best {
      if PathCost(g, p, g.steps) < g.inf {
        TableIsLower(g, rows[..], p, g.steps);
      }
    }
    if bestK < 0 {
      return None, best;
    }
    var choice := Backtrack(g, rows, bestK);
    plan := Some(choice);
  }
}
