/**
  The smart parking allocation agent: a cost matrix over cars (rows) and
  slots (columns), and the greedy fallback that assigns each car in turn the
  cheapest slot not taken yet.
 */
module Agent {
  import opened Wrappers

  // ---------------------------------------------------------------------------
  // Cars, slots and weights
  // ---------------------------------------------------------------------------

  /** A car as the agent reads it: only its (possibly missing) size matters to the cost. */
  datatype Car = Car(size: Option<string>)

  /** A parking slot: size, distance and priority are each optional in the input records. */
  datatype Slot = Slot(size: Option<string>, distance: Option<int>, priority: Option<int>)

  /** The three cost weights: per unit of distance, for a size mismatch, per unit of priority. */
  datatype Weights = Weights(distance: int, sizePenalty: int, priority: int)

  /** The weights used when the caller supplies none. */
  const DefaultWeights := Weights(1, 1000, -10)

  /** The weights in force for a call that may or may not pass its own. */
  function EffectiveWeights(weights: Option<Weights>): Weights {
    weights.GetOr(DefaultWeights)
  }

  /** The cost of parking `car` in `slot`: weighted distance, a penalty when the sizes
      differ (a missing size on either side counts as a size of its own), and
      weighted priority; a missing distance or priority counts as 0. */
  function EntryCost(car: Car, slot: Slot, w: Weights): int {
    var dist := slot.distance.GetOr(0);
    var priority := slot.priority.GetOr(0);
    w.distance * dist
      + (if car.size != slot.size then w.sizePenalty else 0)
      + w.priority * priority
  }

  /** A slot record without a distance or priority costs what one with both set to 0 costs. */
  lemma MissingFieldsCostZero(car: Car, size: Option<string>, w: Weights)
    ensures EntryCost(car, Slot(size, None, None), w) == EntryCost(car, Slot(size, Some(0), Some(0)), w)
    ensures EntryCost(car, Slot(size, None, None), w) == if car.size != size then w.sizePenalty else 0
  {
  }

  /** Builds the cost matrix row by row: one row per car, one entry per slot, in slot order. */
  method BuildCostMatrix(cars: seq<Car>, slots: seq<Slot>, weights: Option<Weights>)
    returns (matrix: seq<seq<int>>)
    ensures |matrix| == |cars|
    ensures forall i | 0 <= i < |matrix| :: |matrix[i]| == |slots|
    ensures forall i, j | 0 <= i < |cars| && 0 <= j < |slots| ::
      matrix[i][j] == EntryCost(cars[i], slots[j], EffectiveWeights(weights))
    ensures weights.None? ==> forall i, j | 0 <= i < |cars| && 0 <= j < |slots| ::
      matrix[i][j] == EntryCost(cars[i], slots[j], Weights(1, 1000, -10))
  {
    var w := EffectiveWeights(weights);
    matrix := [];
    for i := 0 to |cars|
      invariant |matrix| == i
      invariant forall k | 0 <= k < i :: |matrix[k]| == |slots|
      invariant forall k, j | 0 <= k < i && 0 <= j < |slots| :: matrix[k][j] == EntryCost(cars[k], slots[j], w)
    {
      var row: seq<int> := [];
      for j := 0 to |slots|
        invariant |row| == j
        invariant forall l | 0 <= l < j :: row[l] == EntryCost(cars[i], slots[l], w)
      {
        row := row + [EntryCost(cars[i], slots[j], w)];
      }
      matrix := matrix + [row];
    }
  }

  // ---------------------------------------------------------------------------
  // The greedy assignment, as a specification
  // ---------------------------------------------------------------------------

  /** One chosen pair: car `row` parks in slot `col`. */
  datatype Assignment = Assignment(row: nat, col: nat)

  /** What the greedy loop has built after some rows: the pairs, the slots taken, the running total. */
  datatype GreedyState = GreedyState(assignments: seq<Assignment>, used: set<nat>, total: int)

  /** Column `c` is the one the scan over the first `n` entries of `row` settles on:
      unused, no dearer than any unused column, and strictly cheaper than every
      unused column before it (ties go to the lowest index). */
  predicate IsCheapestBelow(row: seq<int>, used: set<nat>, n: nat, c: nat)
    requires n <= |row|
  {
    && c < n
    && c !in used
    && (forall j | 0 <= j < n && j !in used :: row[c] <= row[j])
    && (forall j | 0 <= j < c && j !in used :: row[c] < row[j])
  }

  /** The scan over the whole row. */
  predicate IsCheapest(row: seq<int>, used: set<nat>, c: nat) {
    IsCheapestBelow(row, used, |row|, c)
  }

  /** The column the scan over the first `n` entries of `row` has chosen; `None` is
      the initial "no best yet", which survives only if every column seen is used. */
  function CheapestUnused(row: seq<int>, used: set<nat>, n: nat): (r: Option<nat>)
    requires n <= |row|
    ensures r.Some? ==> r.value < n && r.value !in used
  {
    if n == 0 then None
    else
      var best := CheapestUnused(row, used, n - 1);
      var c := n - 1;
      if c in used then best
      else if best.None? || row[c] < row[best.value] then Some(c)
      else best
  }

  /** The scan finds nothing exactly when every column it saw is used, and otherwise
      finds the cheapest unused column, the first one on a tie. */
  lemma {:induction false} CheapestUnusedIsCheapest(row: seq<int>, used: set<nat>, n: nat)
    requires n <= |row|
    ensures CheapestUnused(row, used, n).None? <==> forall j | 0 <= j < n :: j in used
    ensures CheapestUnused(row, used, n).Some? ==> IsCheapestBelow(row, used, n, CheapestUnused(row, used, n).value)
  {
    if n > 0 {
      CheapestUnusedIsCheapest(row, used, n - 1);
    }
  }

  /** One iteration of the outer loop: scan row `r` and, if a column was found, take it. */
  function Step(s: GreedyState, r: nat, row: seq<int>): GreedyState {
    match CheapestUnused(row, s.used, |row|)
    case None => s
    case Some(c) => GreedyState(s.assignments + [Assignment(r, c)], s.used + {c}, s.total + row[c])
  }

  /** The greedy state after the first `k` rows of `m`. */
  function GreedyPrefix(m: seq<seq<int>>, k: nat): GreedyState
    requires k <= |m|
  {
    if k == 0 then GreedyState([], {}, 0) else Step(GreedyPrefix(m, k - 1), k - 1, m[k - 1])
  }

  /** The greedy state after every row. */
  function Greedy(m: seq<seq<int>>): GreedyState {
    GreedyPrefix(m, |m|)
  }

  function ColumnsOf(a: seq<Assignment>): set<nat> {
    set i | 0 <= i < |a| :: a[i].col
  }

  predicate ColumnsDistinct(a: seq<Assignment>) {
    forall i, j | 0 <= i < j < |a| :: a[i].col != a[j].col
  }

  predicate RowsIncreasing(a: seq<Assignment>) {
    forall i, j | 0 <= i < j < |a| :: a[i].row < a[j].row
  }

  /** Every pair indexes an entry that exists in the matrix. */
  predicate ValidPairs(m: seq<seq<int>>, a: seq<Assignment>) {
    forall i | 0 <= i < |a| :: a[i].row < |m| && a[i].col < |m[a[i].row]|
  }

  /** The matrix entry at `(row, col)`, or 0 where the matrix has none. */
  function EntryAt(m: seq<seq<int>>, row: nat, col: nat): int {
    if row < |m| && col < |m[row]| then m[row][col] else 0
  }

  /** The sum of the matrix entries at the given pairs. */
  function CostOf(m: seq<seq<int>>, a: seq<Assignment>): int {
    if a == [] then 0
    else
      var last := a[|a| - 1];
      CostOf(m, a[..|a| - 1]) + EntryAt(m, last.row, last.col)
  }

  /** The used set is the set of assigned columns, and no column is assigned twice. */
  predicate ColumnsTracked(s: GreedyState) {
    s.used == ColumnsOf(s.assignments) && ColumnsDistinct(s.assignments)
  }

  /** Every pair names a row below `k` and a column that row has. */
  predicate Inside(m: seq<seq<int>>, a: seq<Assignment>, k: nat) {
    forall i | 0 <= i < |a| :: a[i].row < k && k <= |m| && a[i].col < |m[a[i].row]|
  }

  /** Each pair took the cheapest column of its row among those unused before it. */
  predicate EachPickCheapest(m: seq<seq<int>>, a: seq<Assignment>) {
    forall i | 0 <= i < |a| :: a[i].row < |m| && IsCheapest(m[a[i].row], ColumnsOf(a[..i]), a[i].col)
  }

  /** Row `r` received a pair in `a`. */
  predicate HasRow(a: seq<Assignment>, r: nat) {
    exists i | 0 <= i < |a| :: a[i].row == r
  }

  /** When row `r` was scanned, one of its columns was still free in the greedy state. */
  predicate FreeAtTurn(m: seq<seq<int>>, r: nat)
    requires r < |m|
  {
    exists j | 0 <= j < |m[r]| :: j !in GreedyPrefix(m, r).used
  }

  /** Column `j` is the column of no pair in `a` made for a row before `r`. */
  predicate Untaken(a: seq<Assignment>, r: nat, j: nat) {
    forall i | 0 <= i < |a| && a[i].row < r :: a[i].col != j
  }

  /** Some column of row `r` is the column of no pair in `a` made for an earlier row. */
  predicate HadFreeColumn(m: seq<seq<int>>, a: seq<Assignment>, r: nat)
    requires r < |m|
  {
    exists j | 0 <= j < |m[r]| :: Untaken(a, r, j)
  }

  function Min(x: int, y: int): int {
    if x <= y then x else y
  }

  /** The set of the first `n` naturals. */
  function Below(n: nat): set<nat> {
    if n == 0 then {} else Below(n - 1) + {n - 1}
  }

  lemma {:induction false} BelowMembers(n: nat)
    ensures forall x: nat :: x in Below(n) <==> x < n
  {
    if n > 0 {
      BelowMembers(n - 1);
    }
  }

  lemma AddFresh(u: set<nat>, x: nat)
    requires x !in u
    ensures |u + {x}| == |u| + 1
  {
  }

  lemma {:induction false} BelowSize(n: nat)
    ensures |Below(n)| == n
  {
    if n > 0 {
      BelowSize(n - 1);
      BelowMembers(n - 1);
      AddFresh(Below(n - 1), n - 1);
    }
  }

  /** A set of naturals below `n` has at most `n` elements: with fewer it misses one of
      them, with exactly `n` it holds them all. */
  lemma Pigeonhole(u: set<nat>, n: nat)
    requires u <= Below(n)
    ensures |u| <= n
    ensures |u| < n ==> exists j | 0 <= j < n :: j !in u
    ensures |u| == n ==> forall j | 0 <= j < n :: j in u
  {
    BelowSize(n);
    BelowMembers(n);
    if |u| < n {
      assert |Below(n) - u| > 0;
      var j :| j in Below(n) - u;
    } else {
      assert Below(n) * u == u;
      assert |Below(n) - u| == 0;
      forall j | 0 <= j < n ensures j in u {
        assert j !in Below(n) - u;
      }
    }
  }

  // ---------------------------------------------------------------------------
  // Properties of the greedy specification
  // ---------------------------------------------------------------------------

  /** One more row is one more step. */
  lemma GreedyPrefixStep(m: seq<seq<int>>, k: nat)
    requires k < |m|
    ensures GreedyPrefix(m, k + 1) == Step(GreedyPrefix(m, k), k, m[k])
  {
  }

  lemma StepKeepsColumnsTracked(s: GreedyState, r: nat, row: seq<int>)
    requires ColumnsTracked(s)
    ensures ColumnsTracked(Step(s, r, row))
  {
    match CheapestUnused(row, s.used, |row|)
    case None =>
    case Some(c) =>
      var a := s.assignments + [Assignment(r, c)];
      assert ColumnsOf(a) == ColumnsOf(s.assignments) + {c} by {
        forall x | x in ColumnsOf(a) ensures x in ColumnsOf(s.assignments) + {c} {
          var i :| 0 <= i < |a| && a[i].col == x;
          if i < |s.assignments| { assert s.assignments[i].col == x; }
        }
        forall x | x in ColumnsOf(s.assignments) ensures x in ColumnsOf(a) {
          var i :| 0 <= i < |s.assignments| && s.assignments[i].col == x;
          assert a[i].col == x;
        }
        assert a[|a| - 1].col == c;
      }
      forall i | 0 <= i < |s.assignments| ensures s.assignments[i].col != c {
        assert s.assignments[i].col in ColumnsOf(s.assignments);
      }
  }

  /** The set of used slots is exactly the set of assigned columns, and no column is assigned twice. */
  lemma {:induction false} GreedyColumnsDistinct(m: seq<seq<int>>, k: nat)
    requires k <= |m|
    ensures ColumnsTracked(GreedyPrefix(m, k))
  {
    if k == 0 {
      assert ColumnsOf([]) == {};
    } else {
      GreedyColumnsDistinct(m, k - 1);
      StepKeepsColumnsTracked(GreedyPrefix(m, k - 1), k - 1, m[k - 1]);
      GreedyPrefixStep(m, k - 1);
    }
  }

  lemma StepKeepsInside(m: seq<seq<int>>, s: GreedyState, k: nat)
    requires k < |m|
    requires Inside(m, s.assignments, k)
    ensures Inside(m, Step(s, k, m[k]).assignments, k + 1)
  {
  }

  /** Every pair names a row already scanned and a column that row has. */
  lemma {:induction false} GreedyInside(m: seq<seq<int>>, k: nat)
    requires k <= |m|
    ensures Inside(m, GreedyPrefix(m, k).assignments, k)
  {
    if k > 0 {
      GreedyInside(m, k - 1);
      StepKeepsInside(m, GreedyPrefix(m, k - 1), k - 1);
      GreedyPrefixStep(m, k - 1);
    }
  }

  lemma StepKeepsRowsIncreasing(m: seq<seq<int>>, s: GreedyState, k: nat)
    requires k < |m|
    requires Inside(m, s.assignments, k) && RowsIncreasing(s.assignments)
    ensures RowsIncreasing(Step(s, k, m[k]).assignments)
  {
  }

  /** Rows appear in increasing order, so each row at most once. */
  lemma {:induction false} GreedyRowsIncreasing(m: seq<seq<int>>, k: nat)
    requires k <= |m|
    ensures RowsIncreasing(GreedyPrefix(m, k).assignments)
  {
    if k > 0 {
      GreedyRowsIncreasing(m, k - 1);
      GreedyInside(m, k - 1);
      StepKeepsRowsIncreasing(m, GreedyPrefix(m, k - 1), k - 1);
      GreedyPrefixStep(m, k - 1);
    }
  }

  lemma StepKeepsTotal(m: seq<seq<int>>, s: GreedyState, k: nat)
    requires k < |m|
    requires s.total == CostOf(m, s.assignments)
    ensures Step(s, k, m[k]).total == CostOf(m, Step(s, k, m[k]).assignments)
  {
    match CheapestUnused(m[k], s.used, |m[k]|)
    case None =>
    case Some(c) =>
      var a := s.assignments + [Assignment(k, c)];
      assert a[..|a| - 1] == s.assignments;
  }

  /** The running total is the sum of the matrix entries at the chosen pairs. */
  lemma {:induction false} GreedyTotal(m: seq<seq<int>>, k: nat)
    requires k <= |m|
    ensures GreedyPrefix(m, k).total == CostOf(m, GreedyPrefix(m, k).assignments)
  {
    if k > 0 {
      GreedyTotal(m, k - 1);
      StepKeepsTotal(m, GreedyPrefix(m, k - 1), k - 1);
      GreedyPrefixStep(m, k - 1);
    }
  }

  lemma StepKeepsCheapest(m: seq<seq<int>>, s: GreedyState, k: nat)
    requires k < |m|
    requires s.used == ColumnsOf(s.assignments) && EachPickCheapest(m, s.assignments)
    ensures EachPickCheapest(m, Step(s, k, m[k]).assignments)
  {
    CheapestUnusedIsCheapest(m[k], s.used, |m[k]|);
    match CheapestUnused(m[k], s.used, |m[k]|)
    case None =>
    case Some(c) =>
      var a := s.assignments + [Assignment(k, c)];
      forall i | 0 <= i < |a| ensures a[i].row < |m| && IsCheapest(m[a[i].row], ColumnsOf(a[..i]), a[i].col) {
        if i < |s.assignments| {
          assert a[..i] == s.assignments[..i];
        } else {
          assert a[..i] == s.assignments;
        }
      }
  }

  /** Each pair's column is the cheapest among the columns unused when its row was scanned,
      the lowest such index on a tie. */
  lemma {:induction false} GreedyPicksCheapest(m: seq<seq<int>>, k: nat)
    requires k <= |m|
    ensures EachPickCheapest(m, GreedyPrefix(m, k).assignments)
  {
    if k > 0 {
      var s := GreedyPrefix(m, k - 1);
      GreedyPicksCheapest(m, k - 1);
      assert s.used == ColumnsOf(s.assignments) by {
        GreedyColumnsDistinct(m, k - 1);
      }
      StepKeepsCheapest(m, s, k - 1);
      GreedyPrefixStep(m, k - 1);
    }
  }

  lemma StepHasRow(m: seq<seq<int>>, s: GreedyState, k: nat)
    requires k < |m|
    requires Inside(m, s.assignments, k)
    ensures forall r | 0 <= r < k :: HasRow(Step(s, k, m[k]).assignments, r) <==> HasRow(s.assignments, r)
    ensures HasRow(Step(s, k, m[k]).assignments, k) <==> exists j | 0 <= j < |m[k]| :: j !in s.used
  {
    var a := Step(s, k, m[k]).assignments;
    assert !HasRow(s.assignments, k);
    CheapestUnusedIsCheapest(m[k], s.used, |m[k]|);
    match CheapestUnused(m[k], s.used, |m[k]|)
    case None =>
    case Some(c) =>
      assert a[|a| - 1].row == k;
      forall r | 0 <= r < k ensures HasRow(a, r) ==> HasRow(s.assignments, r) {
        if HasRow(a, r) {
          var i :| 0 <= i < |a| && a[i].row == r;
          assert s.assignments[i].row == r;
        }
      }
      forall r | 0 <= r < k ensures HasRow(s.assignments, r) ==> HasRow(a, r) {
        if HasRow(s.assignments, r) {
          var i :| 0 <= i < |s.assignments| && s.assignments[i].row == r;
          assert a[i].row == r;
        }
      }
  }

  /** A row receives a pair exactly when, at its turn, some column of it was still unused. */
  lemma {:induction false} GreedySkipsOnlyExhaustedRows(m: seq<seq<int>>, k: nat)
    requires k <= |m|
    ensures forall r | 0 <= r < k :: HasRow(GreedyPrefix(m, k).assignments, r) <==> FreeAtTurn(m, r)
  {
    if k > 0 {
      GreedySkipsOnlyExhaustedRows(m, k - 1);
      GreedyInside(m, k - 1);
      StepHasRow(m, GreedyPrefix(m, k - 1), k - 1);
      GreedyPrefixStep(m, k - 1);
    }
  }

  /** Later rows only append pairs, and only pairs for rows from `r` on. */
  lemma {:induction false} GreedyPrefixExtends(m: seq<seq<int>>, r: nat, k: nat)
    requires r <= k <= |m|
    ensures var a, b := GreedyPrefix(m, r).assignments, GreedyPrefix(m, k).assignments;
      |a| <= |b| && b[..|a|] == a && forall i | |a| <= i < |b| :: r <= b[i].row
  {
    if k > r {
      GreedyPrefixExtends(m, r, k - 1);
      GreedyPrefixStep(m, k - 1);
    }
  }

  /** The free columns at a row's turn are the columns of that row that no pair of the
      final result made for an earlier row takes. */
  lemma GreedyFreeAtTurn(m: seq<seq<int>>, r: nat)
    requires r < |m|
    ensures FreeAtTurn(m, r) <==> HadFreeColumn(m, Greedy(m).assignments, r)
  {
    var s := GreedyPrefix(m, r);
    var a, b := s.assignments, Greedy(m).assignments;
    GreedyPrefixExtends(m, r, |m|);
    GreedyInside(m, r);
    GreedyColumnsDistinct(m, r);
    forall j | 0 <= j < |m[r]| ensures j !in s.used <==> Untaken(b, r, j) {
      if j !in s.used {
        forall i | 0 <= i < |b| && b[i].row < r ensures b[i].col != j {
          assert i < |a| && b[i] == a[i];
          assert a[i].col in ColumnsOf(a);
        }
      }
      if Untaken(b, r, j) {
        forall x | x in ColumnsOf(a) ensures x != j {
          var i :| 0 <= i < |a| && a[i].col == x;
          assert b[i] == a[i];
        }
      }
    }
  }

  lemma StepCount(s: GreedyState, r: nat, row: seq<int>, n: nat, k: nat)
    requires |row| == n && |s.assignments| == Min(k, n)
    requires |s.assignments| < n ==> exists j | 0 <= j < n :: j !in s.used
    requires |s.assignments| >= n ==> forall j | 0 <= j < n :: j in s.used
    ensures |Step(s, r, row).assignments| == Min(k + 1, n)
  {
    CheapestUnusedIsCheapest(row, s.used, n);
  }

  lemma StepKeepsUsedCount(s: GreedyState, r: nat, row: seq<int>)
    requires |s.used| == |s.assignments|
    ensures |Step(s, r, row).used| == |Step(s, r, row).assignments|
  {
    match CheapestUnused(row, s.used, |row|)
    case None =>
    case Some(c) => AddFresh(s.used, c);
  }

  /** Each pair takes a fresh column, so there are as many used columns as pairs. */
  lemma {:induction false} GreedyUsedCount(m: seq<seq<int>>, k: nat)
    requires k <= |m|
    ensures |GreedyPrefix(m, k).used| == |GreedyPrefix(m, k).assignments|
  {
    if k > 0 {
      GreedyUsedCount(m, k - 1);
      StepKeepsUsedCount(GreedyPrefix(m, k - 1), k - 1, m[k - 1]);
      GreedyPrefixStep(m, k - 1);
    }
  }

  lemma StepKeepsBelow(s: GreedyState, r: nat, row: seq<int>, n: nat)
    requires |row| == n && s.used <= Below(n)
    ensures Step(s, r, row).used <= Below(n)
  {
    BelowMembers(n);
  }

  /** On a matrix of `n` columns, every used column is below `n`. */
  lemma {:induction false} GreedyColumnsBelow(m: seq<seq<int>>, n: nat, k: nat)
    requires k <= |m|
    requires forall r | 0 <= r < |m| :: |m[r]| == n
    ensures GreedyPrefix(m, k).used <= Below(n)
  {
    if k > 0 {
      GreedyColumnsBelow(m, n, k - 1);
      StepKeepsBelow(GreedyPrefix(m, k - 1), k - 1, m[k - 1], n);
      GreedyPrefixStep(m, k - 1);
    }
  }

  /** On a matrix of `n` columns, a column is still free exactly while fewer than `n`
      pairs have been made. */
  lemma GreedyFreeColumn(m: seq<seq<int>>, n: nat, k: nat)
    requires k <= |m|
    requires forall r | 0 <= r < |m| :: |m[r]| == n
    ensures |GreedyPrefix(m, k).assignments| < n ==> exists j | 0 <= j < n :: j !in GreedyPrefix(m, k).used
    ensures |GreedyPrefix(m, k).assignments| >= n ==> forall j | 0 <= j < n :: j in GreedyPrefix(m, k).used
  {
    GreedyUsedCount(m, k);
    GreedyColumnsBelow(m, n, k);
    Pigeonhole(GreedyPrefix(m, k).used, n);
  }

  /** On a rectangular matrix of `n` columns, after `k` rows, `min(k, n)` pairs have been made. */
  lemma {:induction false} GreedyPrefixCount(m: seq<seq<int>>, n: nat, k: nat)
    requires k <= |m|
    requires forall r | 0 <= r < |m| :: |m[r]| == n
    ensures |GreedyPrefix(m, k).assignments| == Min(k, n)
  {
    if k > 0 {
      GreedyPrefixCount(m, n, k - 1);
      GreedyFreeColumn(m, n, k - 1);
      StepCount(GreedyPrefix(m, k - 1), k - 1, m[k - 1], n, k - 1);
      GreedyPrefixStep(m, k - 1);
    }
  }

  /** With every row of the same width, the greedy makes min(rows, columns) pairs;
      on a matrix with no rows it makes none and the total is 0. */
  lemma GreedyCount(m: seq<seq<int>>, n: nat)
    requires forall r | 0 <= r < |m| :: |m[r]| == n
    ensures |Greedy(m).assignments| == Min(|m|, n)
    ensures m == [] ==> Greedy(m) == GreedyState([], {}, 0)
  {
    GreedyPrefixCount(m, n, |m|);
  }

  // ---------------------------------------------------------------------------
  // The greedy assignment, as the source runs it
  // ---------------------------------------------------------------------------

  /** The fallback of `assign_hungarian`: rows in order, each taking the cheapest
      unused column (strict comparison, so ties go to the lowest index). */
  method AssignGreedy(m: seq<seq<int>>) returns (assignments: seq<Assignment>, total: int)
    ensures assignments == Greedy(m).assignments && total == Greedy(m).total
    ensures ColumnsDistinct(assignments)
    ensures RowsIncreasing(assignments)
    ensures ValidPairs(m, assignments)
    ensures total == CostOf(m, assignments)
    ensures EachPickCheapest(m, assignments)
    ensures forall r | 0 <= r < |m| :: HasRow(assignments, r) <==> HadFreeColumn(m, assignments, r)
    ensures m == [] ==> assignments == [] && total == 0
    ensures m != [] && (forall r | 0 <= r < |m| :: |m[r]| == |m[0]|) ==>
      |assignments| == Min(|m|, |m[0]|)
  {
    assignments := [];
    var used: set<nat> := {};
    total := 0;
    for r := 0 to |m|
      invariant GreedyState(assignments, used, total) == GreedyPrefix(m, r)
    {
      var row := m[r];
      var bestCol: Option<nat> := None;
      var bestCost := 0;
      for c := 0 to |row|
        invariant bestCol == CheapestUnused(row, used, c)
        invariant bestCol.Some? ==> bestCost == row[bestCol.value]
      {
        if c in used {
          continue;
        }
        if bestCol.None? || row[c] < bestCost {
          bestCost := row[c];
          bestCol := Some(c);
        }
      }
      if bestCol.Some? {
        assignments := assignments + [Assignment(r, bestCol.value)];
        used := used + {bestCol.value};
        total := total + bestCost;
      }
    }
    GreedyColumnsDistinct(m, |m|);
    GreedyRowsIncreasing(m, |m|);
    GreedyTotal(m, |m|);
    GreedyPicksCheapest(m, |m|);
    GreedySkipsOnlyExhaustedRows(m, |m|);
    forall r | 0 <= r < |m| ensures FreeAtTurn(m, r) <==> HadFreeColumn(m, assignments, r) {
      GreedyFreeAtTurn(m, r);
    }
    if m != [] && (forall r | 0 <= r < |m| :: |m[r]| == |m[0]|) {
      GreedyCount(m, |m[0]|);
    }
  }
}
