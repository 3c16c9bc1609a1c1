/**
 * Value-function iteration for the discretised cake-eating problem
 * (src/cakeDP.go). The grid, consumption and utility tables are filled by
 * nested loops; each iteration fills the preallocated `aux` and `profit`
 * matrices in place, takes the first-index maximum of every row and measures
 * the L1 gap between successive value vectors.
 *
 * Every goroutine of the source writes only its own row, so each parallel
 * phase is modelled as a sequential loop over rows, and each per-row method
 * says that no other row changes.
 */
module CakeDP {
  import opened Floats

  /** Stock level written over grid index 0, so that the logarithm never sees zero. */
  const Epsilon: real := 0.00063829
  /** Starting value of every row's running maximum. */
  const Sentinel: real := -1000000.0

  // ---------------------------------------------------------------------
  // Grid of cake sizes
  // ---------------------------------------------------------------------

  /**
   * The grid step k0/(kpoints-1). With a single grid point the source divides
   * by zero, but that step is never stored, so any value will do.
   */
  function Increment(k0: real, kpoints: nat): (r: real)
    ensures kpoints > 1 ==> (kpoints - 1) as real * r == k0
  {
    if kpoints > 1 then k0 / (kpoints - 1) as real else 0.0
  }

  /** The grid in exact arithmetic: i steps of the increment, index 0 replaced by Epsilon. */
  function Grid(k0: real, kpoints: nat): (g: seq<real>)
    ensures |g| == kpoints
  {
    seq(kpoints, i => if i == 0 then Epsilon else i as real * Increment(k0, kpoints))
  }

  /** The grid starts at Epsilon and ends at the whole cake k0. */
  lemma GridEnds(k0: real, kpoints: nat)
    requires kpoints >= 2
    ensures Grid(k0, kpoints)[0] == Epsilon
    ensures Grid(k0, kpoints)[kpoints - 1] == k0
  {
    var d := (kpoints - 1) as real;
    assert Increment(k0, kpoints) == k0 / d;
    assert Grid(k0, kpoints)[kpoints - 1] == d * (k0 / d);
  }

  /** For a positive cake the grid is strictly increasing from index 1 on, and every point is positive. */
  lemma GridIncreasing(k0: real, kpoints: nat, i: nat, j: nat)
    requires k0 > 0.0
    requires 1 <= i < j < kpoints
    ensures 0.0 < Grid(k0, kpoints)[i] < Grid(k0, kpoints)[j]
  {
    var step := Increment(k0, kpoints);
    assert step > 0.0;
    assert (j - i) as real * step > 0.0;
    assert j as real * step == i as real * step + (j - i) as real * step;
  }

  /**
   * Uniform spacing: away from index 0 the difference of two grid points is
   * again a grid point, which is why the consumption table can be read off the
   * grid instead of subtracting.
   */
  lemma GridSpacing(k0: real, kpoints: nat, i: nat, j: nat)
    requires 1 <= j < i < kpoints
    ensures Grid(k0, kpoints)[i] - Grid(k0, kpoints)[j] == Grid(k0, kpoints)[i - j]
  {
  }

  /** Fills the grid by repeatedly adding the increment, then overwrites index 0. */
  method BuildGrid(k0: real, kpoints: nat) returns (cakeVector: array<real>)
    requires kpoints >= 1
    ensures cakeVector[..] == Grid(k0, kpoints)
  {
    var kincr := Increment(k0, kpoints);
    cakeVector := new real[kpoints];
    var i := 1;
    var incPoint := 0.0;
    while i <= kpoints
      invariant 1 <= i <= kpoints + 1
      invariant incPoint == (i - 1) as real * kincr
      invariant forall j :: 0 <= j < i - 1 ==> cakeVector[j] == j as real * kincr
    {
      cakeVector[i - 1] := incPoint;
      incPoint := incPoint + kincr;
      i := i + 1;
    }
    cakeVector[0] := Epsilon;
    assert forall j :: 0 <= j < kpoints ==> cakeVector[..][j] == Grid(k0, kpoints)[j];
  }

  // ---------------------------------------------------------------------
  // Consumption and utility tables
  // ---------------------------------------------------------------------

  /**
   * Consumption when the stock moves from grid point m to grid point n:
   * the grid value m-n places down, or NaN when n > m (the stock cannot grow).
   */
  function Consumption(cakeVector: seq<real>, m: nat, n: nat): (c: Float64)
    requires m < |cakeVector|
    ensures c.NaN? <==> n > m
    ensures c.Num? ==> c.val in cakeVector
  {
    if n <= m then Num(cakeVector[m - n]) else NaN
  }

  /** Column 0 (eat everything) is always feasible and consumes the whole stock m. */
  lemma ConsumptionColumnZero(cakeVector: seq<real>, m: nat)
    requires m < |cakeVector|
    ensures Consumption(cakeVector, m, 0) == Num(cakeVector[m])
  {
  }

  /**
   * On the grid, consumption is the drop in stock from m to n, except where
   * the Epsilon at index 0 is involved.
   */
  lemma ConsumptionIsStockDrop(k0: real, kpoints: nat, m: nat, n: nat)
    requires 1 <= n < m < kpoints
    ensures Consumption(Grid(k0, kpoints), m, n) == Num(Grid(k0, kpoints)[m] - Grid(k0, kpoints)[n])
  {
  }

  /** Fills the consumption table row by row, walking k down from m while it is a valid index. */
  method BuildConsumption(cakeVector: array<real>, kpoints: nat) returns (consum: array2<Float64>)
    requires cakeVector.Length == kpoints
    ensures consum.Length0 == kpoints && consum.Length1 == kpoints
    ensures forall m, n :: 0 <= m < kpoints && 0 <= n < kpoints ==>
              consum[m, n] == Consumption(cakeVector[..], m, n)
  {
    consum := new Float64[kpoints, kpoints]((_, _) => Num(0.0));
    var m := 0;
    while m < kpoints
      invariant 0 <= m <= kpoints
      invariant forall i, j :: 0 <= i < m && 0 <= j < kpoints ==>
                  consum[i, j] == Consumption(cakeVector[..], i, j)
    {
      var k: int := m;
      var n := 0;
      while n < kpoints
        invariant 0 <= n <= kpoints
        invariant k == if n <= m then m - n else -1
        invariant forall j :: 0 <= j < n ==> consum[m, j] == Consumption(cakeVector[..], m, j)
        invariant forall i, j :: 0 <= i < m && 0 <= j < kpoints ==>
                    consum[i, j] == Consumption(cakeVector[..], i, j)
      {
        if k >= 0 {
          consum[m, n] := Num(cakeVector[k]);
          k := k - 1;
        } else {
          consum[m, n] := NaN;
        }
        n := n + 1;
      }
      m := m + 1;
    }
  }

  /** utilityFuncition: the logarithm, which keeps NaN as NaN. */
  function UtilityFunction(log: real -> real, value: Float64): (r: Float64)
    ensures r.NaN? <==> value.NaN?
  {
    match value
    case NaN => NaN
    case Num(x) => Num(log(x))
  }

  /** Row m of the utility table that the solver derives from a grid. */
  function UtilityRow(log: real -> real, cakeVector: seq<real>, m: nat): (row: seq<Float64>)
    requires m < |cakeVector|
    ensures |row| == |cakeVector|
  {
    seq(|cakeVector|, n requires 0 <= n < |cakeVector| => UtilityFunction(log, Consumption(cakeVector, m, n)))
  }

  /**
   * The utility of moving from m to n is the log of the grid value m-n places
   * down when n <= m, and stays infeasible (NaN) exactly when n > m.
   */
  lemma UtilityRowShape(log: real -> real, cakeVector: seq<real>, m: nat, n: nat)
    requires m < |cakeVector| && n < |cakeVector|
    ensures UtilityRow(log, cakeVector, m)[n].NaN? <==> n > m
    ensures n <= m ==> UtilityRow(log, cakeVector, m)[n] == Num(log(cakeVector[m - n]))
  {
  }

  /** Applies the utility function to every entry of the consumption table. */
  method BuildUtility(consum: array2<Float64>, kpoints: nat, log: real -> real)
    returns (utility: array2<Float64>)
    requires consum.Length0 == kpoints && consum.Length1 == kpoints
    ensures utility.Length0 == kpoints && utility.Length1 == kpoints
    ensures forall m, n :: 0 <= m < kpoints && 0 <= n < kpoints ==>
              utility[m, n] == UtilityFunction(log, consum[m, n])
  {
    utility := new Float64[kpoints, kpoints]((_, _) => Num(0.0));
    var m := 0;
    while m < kpoints
      invariant 0 <= m <= kpoints
      invariant forall i, j :: 0 <= i < m && 0 <= j < kpoints ==>
                  utility[i, j] == UtilityFunction(log, consum[i, j])
    {
      var n := 0;
      while n < kpoints
        invariant 0 <= n <= kpoints
        invariant forall j :: 0 <= j < n ==> utility[m, j] == UtilityFunction(log, consum[m, j])
        invariant forall i, j :: 0 <= i < m && 0 <= j < kpoints ==>
                    utility[i, j] == UtilityFunction(log, consum[i, j])
      {
        utility[m, n] := UtilityFunction(log, consum[m, n]);
        n := n + 1;
      }
      m := m + 1;
    }
  }

  /** The initial guess for the value function: all zeros. */
  method ZeroVector(kpoints: nat) returns (V: array<real>)
    ensures V.Length == kpoints
    ensures forall i :: 0 <= i < kpoints ==> V[i] == 0.0
  {
    V := new real[kpoints];
    var i := 1;
    while i <= kpoints
      invariant 1 <= i <= kpoints + 1
      invariant forall j :: 0 <= j < i - 1 ==> V[j] == 0.0
    {
      V[i - 1] := 0.0;
      i := i + 1;
    }
  }

  // ---------------------------------------------------------------------
  // Bellman operator
  // ---------------------------------------------------------------------

  /** The first `length` entries of row m of a matrix. */
  function Row(a: array2<Float64>, m: nat, length: nat): (r: seq<Float64>)
    requires m < a.Length0 && length <= a.Length1
    reads a
    ensures |r| == length
    ensures forall n :: 0 <= n < length ==> r[n] == a[m, n]
  {
    seq(length, n requires 0 <= n < length reads a => a[m, n])
  }

  /**
   * An entry of `aux`: the continuation value discounted by beta. Contracts
   * use this name for `V[n] * beta` so that the product appears as the same
   * term inside and outside the sequence comprehension of ProfitRow; the
   * verifier does not match the bare product across that boundary.
   */
  function Discount(beta: real, v: real): real
  {
    v * beta
  }

  /** Row m of the Bellman right-hand side: utility plus discounted continuation value. */
  function ProfitRow(utilityRow: seq<Float64>, beta: real, V: seq<real>): (row: seq<Float64>)
    requires |V| <= |utilityRow|
    ensures |row| == |V|
  {
    seq(|V|, n requires 0 <= n < |V| => Add(utilityRow[n], Discount(beta, V[n])))
  }

  /** A profit row is infeasible exactly where its utility row is. */
  lemma ProfitRowKeepsInfeasible(utilityRow: seq<Float64>, beta: real, V: seq<real>, n: nat)
    requires |V| <= |utilityRow| && n < |V|
    ensures ProfitRow(utilityRow, beta, V)[n].NaN? <==> utilityRow[n].NaN?
    ensures utilityRow[n].Num? ==> ProfitRow(utilityRow, beta, V)[n] == Num(utilityRow[n].val + beta * V[n])
  {
  }

  /** auxConcurrent: row m of `aux` becomes beta times V; no other entry changes. */
  method AuxConcurrent(V: array<real>, beta: real, m: nat, length: nat, aux: array2<real>)
    requires length <= V.Length
    requires m < aux.Length0 && length <= aux.Length1
    modifies aux
    ensures forall n :: 0 <= n < length ==> aux[m, n] == Discount(beta, V[n])
    ensures forall i, j :: 0 <= i < aux.Length0 && 0 <= j < aux.Length1 && (i != m || j >= length) ==>
              aux[i, j] == old(aux[i, j])
  {
    var n := 0;
    while n < length
      invariant 0 <= n <= length
      invariant forall j :: 0 <= j < n ==> aux[m, j] == Discount(beta, V[j])
      invariant forall i, j :: 0 <= i < aux.Length0 && 0 <= j < aux.Length1 && (i != m || j >= n) ==>
                  aux[i, j] == old(aux[i, j])
    {
      aux[m, n] := V[n] * beta;
      n := n + 1;
    }
  }

  /** profitConcurrent: row m of `profit` becomes utility plus aux; no other entry changes. */
  method ProfitConcurrent(aux: array2<real>, utility: array2<Float64>, m: nat, length: nat, profit: array2<Float64>)
    requires m < aux.Length0 && length <= aux.Length1
    requires m < utility.Length0 && length <= utility.Length1
    requires m < profit.Length0 && length <= profit.Length1
    requires utility != profit
    modifies profit
    ensures forall n :: 0 <= n < length ==> profit[m, n] == Add(utility[m, n], aux[m, n])
    ensures forall i, j :: 0 <= i < profit.Length0 && 0 <= j < profit.Length1 && (i != m || j >= length) ==>
              profit[i, j] == old(profit[i, j])
  {
    var n := 0;
    while n < length
      invariant 0 <= n <= length
      invariant forall j :: 0 <= j < n ==> profit[m, j] == Add(utility[m, j], aux[m, j])
      invariant forall i, j :: 0 <= i < profit.Length0 && 0 <= j < profit.Length1 && (i != m || j >= n) ==>
                  profit[i, j] == old(profit[i, j])
    {
      profit[m, n] := Add(utility[m, n], aux[m, n]);
      n := n + 1;
    }
  }

  /**
   * bellmanOperation: fills `aux` with beta*V in every row, then `profit`
   * with utility plus aux, both in place, and hands back `profit`.
   */
  method BellmanOperation(utility: array2<Float64>, beta: real, V: array<real>, length: nat,
                          aux: array2<real>, profit: array2<Float64>)
    returns (r: array2<Float64>)
    requires length <= V.Length
    requires length <= utility.Length0 && length <= utility.Length1
    requires length <= aux.Length0 && length <= aux.Length1
    requires length <= profit.Length0 && length <= profit.Length1
    requires utility != profit
    modifies aux, profit
    ensures r == profit
    ensures forall m, n :: 0 <= m < length && 0 <= n < length ==> aux[m, n] == Discount(beta, V[n])
    ensures forall m, n :: 0 <= m < length && 0 <= n < length ==>
              profit[m, n] == Add(utility[m, n], Discount(beta, V[n]))
    ensures forall m :: 0 <= m < length ==>
              Row(profit, m, length) == ProfitRow(Row(utility, m, length), beta, V[..length])
    ensures forall i, j :: 0 <= i < aux.Length0 && 0 <= j < aux.Length1 && (i >= length || j >= length) ==>
              aux[i, j] == old(aux[i, j])
    ensures forall i, j :: 0 <= i < profit.Length0 && 0 <= j < profit.Length1 && (i >= length || j >= length) ==>
              profit[i, j] == old(profit[i, j])
  {
    var m := 0;
    while m < length
      invariant 0 <= m <= length
      invariant forall i, n :: 0 <= i < m && 0 <= n < length ==> aux[i, n] == Discount(beta, V[n])
      invariant forall i, j :: 0 <= i < aux.Length0 && 0 <= j < aux.Length1 && (i >= length || j >= length) ==>
                  aux[i, j] == old(aux[i, j])
      modifies aux
    {
      AuxConcurrent(V, beta, m, length, aux);
      m := m + 1;
    }
    m := 0;
    while m < length
      invariant 0 <= m <= length
      invariant forall i, n :: 0 <= i < length && 0 <= n < length ==> aux[i, n] == Discount(beta, V[n])
      invariant forall i, n :: 0 <= i < m && 0 <= n < length ==>
                  profit[i, n] == Add(utility[i, n], Discount(beta, V[n]))
      invariant forall i, j :: 0 <= i < profit.Length0 && 0 <= j < profit.Length1 && (i >= length || j >= length) ==>
                  profit[i, j] == old(profit[i, j])
      modifies profit
    {
      ProfitConcurrent(aux, utility, m, length, profit);
      m := m + 1;
    }
    r := profit;
    forall i | 0 <= i < length
      ensures Row(profit, i, length) == ProfitRow(Row(utility, i, length), beta, V[..length])
    {
      assert forall n :: 0 <= n < length ==>
        Row(profit, i, length)[n] == ProfitRow(Row(utility, i, length), beta, V[..length])[n];
    }
  }

  // ---------------------------------------------------------------------
  // Row maximiser
  // ---------------------------------------------------------------------

  /** The running maximum of a row and the column that produced it (-1 for none). */
  datatype Best = Best(value: real, index: int)

  /**
   * The left-to-right scan of the first k columns of a row: a column replaces
   * the running best only when it is strictly greater, so NaN columns and
   * later ties never do.
   */
  function ScanRow(row: seq<Float64>, k: nat, start: Best): Best
    requires k <= |row|
  {
    if k == 0 then start
    else
      var b := ScanRow(row, k - 1, start);
      if Gt(row[k - 1], b.value) then Best(row[k - 1].val, k - 1) else b
  }

  /** The scan of a whole row from the sentinel value and index -1. */
  function RowMax(row: seq<Float64>): Best
  {
    ScanRow(row, |row|, Best(Sentinel, -1))
  }

  /**
   * The outcome of the scan, stated without the scan: either nothing beats
   * the starting value and the start is kept, or the result is a feasible
   * column above the start, no feasible column exceeds it, and every feasible
   * column before it is strictly smaller (the first maximum wins).
   */
  ghost predicate IsFirstArgmax(row: seq<Float64>, start: Best, r: Best)
  {
    (r == start && forall j :: 0 <= j < |row| ==> !Gt(row[j], start.value))
    ||
    (0 <= r.index < |row| && row[r.index] == Num(r.value) && r.value > start.value
     && (forall j :: 0 <= j < |row| && row[j].Num? ==> row[j].val <= r.value)
     && (forall j :: 0 <= j < r.index && row[j].Num? ==> row[j].val < r.value))
  }

  /** The scan of the first k columns computes the first argmax of those columns. */
  lemma {:induction false} ScanRowIsFirstArgmax(row: seq<Float64>, k: nat, start: Best)
    requires k <= |row|
    ensures IsFirstArgmax(row[..k], start, ScanRow(row, k, start))
  {
    if k > 0 {
      ScanRowIsFirstArgmax(row, k - 1, start);
      var prefix := row[..k - 1];
      assert forall j :: 0 <= j < k - 1 ==> row[..k][j] == prefix[j];
    }
  }

  /** The first-argmax description determines the result: the scan is its only solution. */
  lemma FirstArgmaxUnique(row: seq<Float64>, start: Best, r1: Best, r2: Best)
    requires IsFirstArgmax(row, start, r1) && IsFirstArgmax(row, start, r2)
    ensures r1 == r2
  {
  }

  /**
   * The row maximum with the source's sentinel: index -1 and value -1000000
   * exactly when no entry is strictly above -1000000; otherwise a feasible
   * column holding the value, no feasible entry above it, every feasible
   * entry before it strictly below it.
   */
  lemma RowMaxSpec(row: seq<Float64>)
    ensures RowMax(row).index == -1 <==> forall j :: 0 <= j < |row| ==> !Gt(row[j], Sentinel)
    ensures RowMax(row).index == -1 ==> RowMax(row).value == Sentinel
    ensures RowMax(row).index != -1 ==>
              var r := RowMax(row);
              0 <= r.index < |row| && row[r.index] == Num(r.value)
              && (forall j :: 0 <= j < |row| && row[j].Num? ==> row[j].val <= r.value)
              && (forall j :: 0 <= j < r.index && row[j].Num? ==> row[j].val < r.value)
  {
    ScanRowIsFirstArgmax(row, |row|, Best(Sentinel, -1));
    assert row[..|row|] == row;
  }

  /**
   * A row whose columns beyond m are infeasible never yields a column beyond
   * m: the chosen next stock never exceeds the current one.
   */
  lemma RowMaxFeasible(row: seq<Float64>, m: nat)
    requires forall n :: m < n < |row| ==> row[n].NaN?
    ensures -1 <= RowMax(row).index <= m
    ensures RowMax(row).index != -1 ==> 0 <= RowMax(row).index < |row| && row[RowMax(row).index].Num?
  {
    RowMaxSpec(row);
  }

  /**
   * In the first row only column 0 is feasible: the policy there is 0 when
   * that payoff beats the sentinel, and -1 otherwise.
   */
  lemma RowMaxFirstRow(row: seq<Float64>)
    requires |row| >= 1
    requires forall n :: 0 < n < |row| ==> row[n].NaN?
    ensures RowMax(row).index == 0 <==> Gt(row[0], Sentinel)
    ensures RowMax(row).index == 0 || RowMax(row).index == -1
  {
    RowMaxSpec(row);
  }

  /**
   * maxConcurrent: scans row m from the running best already stored at m and
   * leaves every other slot of the output arrays alone.
   */
  method MaxConcurrent(matrix: array2<Float64>, length: nat, m: nat, maxValue: array<real>, maxIndex: array<int>)
    requires m < matrix.Length0 && length <= matrix.Length1
    requires m < maxValue.Length && m < maxIndex.Length
    modifies maxValue, maxIndex
    ensures Best(maxValue[m], maxIndex[m]) ==
              ScanRow(Row(matrix, m, length), length, Best(old(maxValue[m]), old(maxIndex[m])))
    ensures forall i :: 0 <= i < maxValue.Length && i != m ==> maxValue[i] == old(maxValue[i])
    ensures forall i :: 0 <= i < maxIndex.Length && i != m ==> maxIndex[i] == old(maxIndex[i])
  {
    ghost var row := Row(matrix, m, length);
    ghost var start := Best(maxValue[m], maxIndex[m]);
    var n := 0;
    while n < length
      invariant 0 <= n <= length
      invariant Best(maxValue[m], maxIndex[m]) == ScanRow(row, n, start)
      invariant forall i :: 0 <= i < maxValue.Length && i != m ==> maxValue[i] == old(maxValue[i])
      invariant forall i :: 0 <= i < maxIndex.Length && i != m ==> maxIndex[i] == old(maxIndex[i])
    {
      if Gt(matrix[m, n], maxValue[m]) {
        maxValue[m] := matrix[m, n].val;
        maxIndex[m] := n;
      }
      n := n + 1;
    }
  }

  /** maxMatrix: the value and index of the first maximum of every row, from the sentinel. */
  method MaxMatrix(matrix: array2<Float64>, length: nat) returns (maxValue: array<real>, maxIndex: array<int>)
    requires length <= matrix.Length0 && length <= matrix.Length1
    ensures maxValue.Length == length && maxIndex.Length == length
    ensures forall m :: 0 <= m < length ==> Best(maxValue[m], maxIndex[m]) == RowMax(Row(matrix, m, length))
  {
    maxValue := new real[length];
    maxIndex := new int[length];
    var m := 0;
    while m < length
      invariant 0 <= m <= length
      invariant forall i :: 0 <= i < m ==> Best(maxValue[i], maxIndex[i]) == RowMax(Row(matrix, i, length))
    {
      maxValue[m] := Sentinel;
      maxIndex[m] := -1;
      MaxConcurrent(matrix, length, m, maxValue, maxIndex);
      m := m + 1;
    }
  }

  // ---------------------------------------------------------------------
  // Gap between successive value vectors
  // ---------------------------------------------------------------------

  /** Sum over the indices of `a` of |b[i] - a[i]|. */
  function L1Distance(a: seq<real>, b: seq<real>): real
    requires |a| <= |b|
  {
    if |a| == 0 then 0.0 else L1Distance(a[..|a| - 1], b) + Abs(b[|a| - 1] - a[|a| - 1])
  }

  lemma {:induction false} L1DistanceNonNegative(a: seq<real>, b: seq<real>)
    requires |a| <= |b|
    ensures L1Distance(a, b) >= 0.0
  {
    if |a| > 0 {
      L1DistanceNonNegative(a[..|a| - 1], b);
    }
  }

  /** The gap is zero exactly when the new vector agrees with the old one. */
  lemma {:induction false} L1DistanceZeroIff(a: seq<real>, b: seq<real>)
    requires |a| <= |b|
    ensures L1Distance(a, b) == 0.0 <==> a == b[..|a|]
  {
    if |a| > 0 {
      var n := |a| - 1;
      L1DistanceZeroIff(a[..n], b);
      L1DistanceNonNegative(a[..n], b);
      if L1Distance(a, b) == 0.0 {
        assert a[..n] == b[..n];
        assert a[n] == b[n];
        assert a == a[..n] + [a[n]];
        assert b[..|a|] == b[..n] + [b[n]];
      }
      if a == b[..|a|] {
        assert a[..n] == b[..n];
      }
    }
  }

  /** Only the first |a| entries of b matter. */
  lemma {:induction false} L1DistancePrefix(a: seq<real>, b: seq<real>, c: seq<real>)
    requires |a| <= |b| && |a| <= |c| && b[..|a|] == c[..|a|]
    ensures L1Distance(a, b) == L1Distance(a, c)
  {
    if |a| > 0 {
      var n := |a| - 1;
      assert b[n] == b[..|a|][n] == c[..|a|][n] == c[n];
      assert b[..n] == b[..|a|][..n];
      assert c[..n] == c[..|a|][..n];
      L1DistancePrefix(a[..n], b, c);
    }
  }

  /** The gap does not depend on which vector is called old. */
  lemma {:induction false} L1DistanceSymmetric(a: seq<real>, b: seq<real>)
    requires |a| == |b|
    ensures L1Distance(a, b) == L1Distance(b, a)
  {
    if |a| > 0 {
      var n := |a| - 1;
      L1DistanceSymmetric(a[..n], b[..n]);
      L1DistancePrefix(a[..n], b, b[..n]);
      L1DistancePrefix(b[..n], a, a[..n]);
    }
  }

  /** calGap: accumulates |newV[i] - V[i]| over the indices of V. */
  method CalGap(V: array<real>, newV: array<real>) returns (gap: real)
    requires V.Length <= newV.Length
    ensures gap == L1Distance(V[..], newV[..])
    ensures gap >= 0.0
  {
    gap := 0.0;
    var index := 0;
    while index < V.Length
      invariant 0 <= index <= V.Length
      invariant gap == L1Distance(V[..index], newV[..])
    {
      assert V[..index + 1][..index] == V[..index];
      gap := gap + Abs(newV[index] - V[index]);
      index := index + 1;
    }
    assert V[..V.Length] == V[..];
    L1DistanceNonNegative(V[..], newV[..]);
  }

  // ---------------------------------------------------------------------
  // Convergence loop
  // ---------------------------------------------------------------------

  /**
   * `V` and `index` are what one round of the loop makes of `previous`: for
   * every row, the first maximum of utility plus discounted `previous`.
   */
  ghost predicate IsBellmanUpdate(utility: array2<Float64>, beta: real, previous: seq<real>,
                                  V: array<real>, index: array<int>)
    reads utility, V, index
  {
    utility.Length0 == |previous| && utility.Length1 == |previous|
    && V.Length == |previous| && index.Length == |previous|
    && forall m :: 0 <= m < |previous| ==>
         Best(V[m], index[m]) == RowMax(ProfitRow(Row(utility, m, |previous|), beta, previous))
  }

  /** A table with as many entries in every row as it has rows. */
  ghost predicate IsSquare(U: seq<seq<Float64>>)
  {
    forall m :: 0 <= m < |U| ==> |U[m]| == |U|
  }

  /** The square array `a` holds the table U entry by entry. */
  ghost predicate Stores(a: array2<Float64>, U: seq<seq<Float64>>)
    reads a
  {
    IsSquare(U) && a.Length0 == |U| && a.Length1 == |U|
    && forall m, n :: 0 <= m < |U| && 0 <= n < |U| ==> a[m, n] == U[m][n]
  }

  /** The utility table that the solver derives from a grid. */
  function UtilityTable(log: real -> real, cakeVector: seq<real>): (U: seq<seq<Float64>>)
    ensures |U| == |cakeVector| && IsSquare(U)
  {
    seq(|cakeVector|, m requires 0 <= m < |cakeVector| => UtilityRow(log, cakeVector, m))
  }

  /** The value vector one round computes from `prev`: every row's maximum payoff. */
  function BellmanStep(U: seq<seq<Float64>>, beta: real, prev: seq<real>): (next: seq<real>)
    requires IsSquare(U) && |prev| == |U|
    ensures |next| == |prev|
  {
    seq(|prev|, m requires 0 <= m < |prev| => RowMax(ProfitRow(U[m], beta, prev)).value)
  }

  /** The policy one round computes from `prev`: every row's maximising column, or -1. */
  function Policy(U: seq<seq<Float64>>, beta: real, prev: seq<real>): (index: seq<int>)
    requires IsSquare(U) && |prev| == |U|
    ensures |index| == |prev|
  {
    seq(|prev|, m requires 0 <= m < |prev| => RowMax(ProfitRow(U[m], beta, prev)).index)
  }

  /** The value vector after k rounds from V0. */
  function Iterate(U: seq<seq<Float64>>, beta: real, V0: seq<real>, k: nat): (V: seq<real>)
    requires IsSquare(U) && |V0| == |U|
    ensures |V| == |V0|
  {
    if k == 0 then V0 else BellmanStep(U, beta, Iterate(U, beta, V0, k - 1))
  }

  /** When a round leaves the gap at zero, the vector it started from is a fixed point of the Bellman step. */
  lemma ZeroGapIsFixedPoint(U: seq<seq<Float64>>, beta: real, V0: seq<real>, k: nat)
    requires IsSquare(U) && |V0| == |U|
    requires L1Distance(Iterate(U, beta, V0, k), Iterate(U, beta, V0, k + 1)) == 0.0
    ensures BellmanStep(U, beta, Iterate(U, beta, V0, k)) == Iterate(U, beta, V0, k)
  {
    var next := Iterate(U, beta, V0, k + 1);
    L1DistanceZeroIff(Iterate(U, beta, V0, k), next);
    assert next[..|next|] == next;
  }

  /** Once an iterate is a fixed point of the Bellman step, every later iterate equals it. */
  lemma {:induction false} FixedPointIsFinal(U: seq<seq<Float64>>, beta: real, V0: seq<real>, k: nat, j: nat)
    requires IsSquare(U) && |V0| == |U|
    requires BellmanStep(U, beta, Iterate(U, beta, V0, k)) == Iterate(U, beta, V0, k)
    ensures Iterate(U, beta, V0, k + j) == Iterate(U, beta, V0, k)
  {
    if j > 0 {
      var i := k + j - 1;
      FixedPointIsFinal(U, beta, V0, k, j - 1);
      assert Iterate(U, beta, V0, i) == Iterate(U, beta, V0, k);
      assert Iterate(U, beta, V0, i + 1) == BellmanStep(U, beta, Iterate(U, beta, V0, k));
    } else {
      assert k + j == k;
    }
  }

  /** The value vector of a Bellman update is the Bellman step of the vector it started from. */
  lemma BellmanUpdateIsStep(utility: array2<Float64>, U: seq<seq<Float64>>, beta: real, previous: seq<real>,
                            V: array<real>, index: array<int>)
    requires Stores(utility, U)
    requires IsBellmanUpdate(utility, beta, previous, V, index)
    ensures V[..] == BellmanStep(U, beta, previous)
    ensures index[..] == Policy(U, beta, previous)
  {
    forall m | 0 <= m < |U|
      ensures Best(V[m], index[m]) == RowMax(ProfitRow(U[m], beta, previous))
    {
      assert Row(utility, m, |previous|) == U[m];
    }
    assert V[..] == BellmanStep(U, beta, previous);
    assert index[..] == Policy(U, beta, previous);
  }

  /** One round of the loop body: the Bellman operator, then the row maximiser. */
  method BellmanRound(utility: array2<Float64>, beta: real, V: array<real>, kpoints: nat,
                      aux: array2<real>, profit: array2<Float64>)
    returns (newV: array<real>, newIndex: array<int>)
    requires utility.Length0 == kpoints && utility.Length1 == kpoints
    requires aux.Length0 == kpoints && aux.Length1 == kpoints
    requires profit.Length0 == kpoints && profit.Length1 == kpoints
    requires V.Length == kpoints
    requires utility != profit
    modifies aux, profit
    ensures IsBellmanUpdate(utility, beta, V[..], newV, newIndex)
  {
    var p := BellmanOperation(utility, beta, V, kpoints, aux, profit);
    assert V[..kpoints] == V[..];
    newV, newIndex := MaxMatrix(p, kpoints);
  }

  /**
   * What the convergence loop keeps between rounds: the vector the last
   * round started from, the value vector, the policy and the gap.
   */
  datatype LoopState = LoopState(previous: seq<real>, V: seq<real>, index: seq<int>, gap: real)

  /** One round of the loop on its state: Bellman step, policy, gap, and V becomes `previous`. */
  function NextState(U: seq<seq<Float64>>, beta: real, s: LoopState): (t: LoopState)
    requires IsSquare(U) && |s.V| == |U|
    ensures t.previous == s.V && |t.V| == |U| && |t.index| == |U|
  {
    var next := BellmanStep(U, beta, s.V);
    LoopState(s.V, next, Policy(U, beta, s.V), L1Distance(s.V, next))
  }

  /** The loop state after k rounds from s0. */
  function Rounds(U: seq<seq<Float64>>, beta: real, s0: LoopState, k: nat): (s: LoopState)
    requires IsSquare(U) && |s0.V| == |U|
    ensures |s.V| == |U|
    ensures k > 0 ==> |s.previous| == |U| && |s.index| == |U|
  {
    if k == 0 then s0 else NextState(U, beta, Rounds(U, beta, s0, k - 1))
  }

  /**
   * The choice one row of a round makes, stated on the utility row and the
   * value vector directly: index -1 with the sentinel value when no feasible
   * column's utility plus discounted value exceeds the sentinel; otherwise a
   * feasible column whose payoff is the value, with no feasible payoff above
   * it and every earlier feasible payoff strictly below it.
   */
  ghost predicate IsBestChoice(utilityRow: seq<Float64>, beta: real, V: seq<real>, value: real, index: int)
    requires |V| <= |utilityRow|
  {
    (index == -1 <==>
       forall n :: 0 <= n < |V| && utilityRow[n].Num? ==> utilityRow[n].val + Discount(beta, V[n]) <= Sentinel)
    && (index == -1 ==> value == Sentinel)
    && (index != -1 ==>
          0 <= index < |V| && utilityRow[index].Num?
          && value == utilityRow[index].val + Discount(beta, V[index])
          && (forall n :: 0 <= n < |V| && utilityRow[n].Num? ==> utilityRow[n].val + Discount(beta, V[n]) <= value)
          && (forall n :: 0 <= n < index && utilityRow[n].Num? ==> utilityRow[n].val + Discount(beta, V[n]) < value))
  }

  /**
   * A round's state: the gap is the L1 distance between the old and the new
   * value vector, every row's value and policy are the first maximum of its
   * profit row, and that is the best choice of utility plus discounted old
   * vector.
   */
  lemma NextStateIsBellmanUpdate(U: seq<seq<Float64>>, beta: real, s: LoopState)
    requires IsSquare(U) && |s.V| == |U|
    ensures NextState(U, beta, s).gap == L1Distance(s.V, NextState(U, beta, s).V)
    ensures forall m :: 0 <= m < |U| ==>
              Best(NextState(U, beta, s).V[m], NextState(U, beta, s).index[m]) == RowMax(ProfitRow(U[m], beta, s.V))
    ensures forall m :: 0 <= m < |U| ==>
              IsBestChoice(U[m], beta, s.V, NextState(U, beta, s).V[m], NextState(U, beta, s).index[m])
  {
    var t := NextState(U, beta, s);
    forall m | 0 <= m < |U|
      ensures IsBestChoice(U[m], beta, s.V, t.V[m], t.index[m])
    {
      var row := ProfitRow(U[m], beta, s.V);
      assert Best(t.V[m], t.index[m]) == RowMax(row);
      RowMaxSpec(row);
      forall n | 0 <= n < |U| {
        ProfitRowKeepsInfeasible(U[m], beta, s.V, n);
      }
    }
  }

  /**
   * Every round before round n left a gap above the tolerance: the loop
   * `for gap > tol` had no reason to stop before reaching round n.
   */
  ghost predicate GapAboveBefore(U: seq<seq<Float64>>, beta: real, s0: LoopState, tol: real, n: nat)
    requires IsSquare(U) && |s0.V| == |U|
  {
    forall k :: 0 < k < n ==> Rounds(U, beta, s0, k).gap > tol
  }

  /** A round n whose gap is above the tolerance extends GapAboveBefore by one round. */
  lemma GapAboveBeforeNext(U: seq<seq<Float64>>, beta: real, s0: LoopState, tol: real, n: nat)
    requires IsSquare(U) && |s0.V| == |U|
    requires GapAboveBefore(U, beta, s0, tol, n)
    requires n > 0 ==> Rounds(U, beta, s0, n).gap > tol
    ensures GapAboveBefore(U, beta, s0, tol, n + 1)
  {
  }

  /**
   * After k rounds the value vector is the k-th Bellman iterate of the start,
   * and once a round has run, `previous` is the iterate before it.
   */
  lemma {:induction false} RoundsIterate(U: seq<seq<Float64>>, beta: real, s0: LoopState, k: nat)
    requires IsSquare(U) && |s0.V| == |U|
    ensures Rounds(U, beta, s0, k).V == Iterate(U, beta, s0.V, k)
    ensures k > 0 ==> Rounds(U, beta, s0, k).previous == Iterate(U, beta, s0.V, k - 1)
  {
    if k > 0 {
      RoundsIterate(U, beta, s0, k - 1);
      var before := Rounds(U, beta, s0, k - 1);
      assert Rounds(U, beta, s0, k) == NextState(U, beta, before);
    }
  }

  /** The body of the convergence loop: one round, then the gap it leaves. */
  method ConvergeRound(utility: array2<Float64>, beta: real, V: array<real>, kpoints: nat,
                       aux: array2<real>, profit: array2<Float64>, ghost U: seq<seq<Float64>>, ghost s: LoopState)
    returns (newV: array<real>, newIndex: array<int>, gap: real)
    requires utility.Length0 == kpoints && utility.Length1 == kpoints
    requires aux.Length0 == kpoints && aux.Length1 == kpoints
    requires profit.Length0 == kpoints && profit.Length1 == kpoints
    requires V.Length == kpoints
    requires utility != profit
    requires Stores(utility, U) && s.V == V[..]
    modifies aux, profit
    ensures LoopState(V[..], newV[..], newIndex[..], gap) == NextState(U, beta, s)
  {
    newV, newIndex := BellmanRound(utility, beta, V, kpoints, aux, profit);
    BellmanUpdateIsStep(utility, U, beta, V[..], newV, newIndex);
    gap := CalGap(V, newV);
  }

  /**
   * The `for gap > tol` loop: apply the Bellman operator, take the row
   * maxima as the new value vector and policy, measure the gap, replace V.
   * The source has no bound on the number of rounds; `maxIter` caps it.
   * `previous` is the value vector the last round started from; U is the
   * utility table that `utility` holds.
   */
  method Converge(utility: array2<Float64>, beta: real, V0: array<real>, index0: array<int>, kpoints: nat,
                  tol: real, aux: array2<real>, profit: array2<Float64>, maxIter: nat, ghost U: seq<seq<Float64>>)
    returns (V: array<real>, index: array<int>, gap: real, iterations: nat, ghost previous: seq<real>)
    requires utility.Length0 == kpoints && utility.Length1 == kpoints
    requires aux.Length0 == kpoints && aux.Length1 == kpoints
    requires profit.Length0 == kpoints && profit.Length1 == kpoints
    requires V0.Length == kpoints && index0.Length == kpoints
    requires utility != profit
    requires Stores(utility, U)
    modifies aux, profit
    ensures V.Length == kpoints && index.Length == kpoints
    ensures iterations <= maxIter
    ensures maxIter > 0 ==> iterations > 0
    ensures gap > tol ==> iterations == maxIter
    ensures LoopState(previous, V[..], index[..], gap)
            == Rounds(U, beta, LoopState(old(V0[..]), old(V0[..]), old(index0[..]), tol + 1.0), iterations)
    ensures GapAboveBefore(U, beta, LoopState(old(V0[..]), old(V0[..]), old(index0[..]), tol + 1.0), tol, iterations)
  {
    V, index := V0, index0;
    gap := tol + 1.0;
    iterations := 0;
    previous := V0[..];
    ghost var s0 := LoopState(previous, V[..], index[..], gap);
    while gap > tol && iterations < maxIter
      invariant V.Length == kpoints && index.Length == kpoints
      invariant iterations <= maxIter
      invariant LoopState(previous, V[..], index[..], gap) == Rounds(U, beta, s0, iterations)
      invariant GapAboveBefore(U, beta, s0, tol, iterations)
      decreases maxIter - iterations
    {
      ghost var s := LoopState(previous, V[..], index[..], gap);
      GapAboveBeforeNext(U, beta, s0, tol, iterations);
      var newV, newIndex, newGap := ConvergeRound(utility, beta, V, kpoints, aux, profit, U, s);
      previous := V[..];
      V, index, gap := newV, newIndex, newGap;
      iterations := iterations + 1;
    }
  }

  // ---------------------------------------------------------------------
  // The program: main's parameters and pipeline
  // ---------------------------------------------------------------------

  /**
   * main: builds the grid, the consumption and utility tables, and runs the
   * convergence loop from the zero vector with k0 = 1, beta = 0.9, 100 grid
   * points and tolerance 0.0001. The final printing is replaced by returning
   * the grid, the value vector and the policy.
   */
  method RunMain(log: real -> real, maxIter: nat)
    returns (cakeVector: array<real>, V: array<real>, index: array<int>, gap: real, iterations: nat,
             ghost previous: seq<real>)
    ensures cakeVector[..] == Grid(1.0, 100)
    ensures cakeVector[0] == Epsilon && cakeVector[99] == 1.0
    ensures V.Length == 100 && index.Length == 100
    ensures maxIter > 0 ==> iterations > 0
    ensures gap > 0.0001 ==> iterations == maxIter
    ensures forall m :: 0 <= m < 100 ==> -1 <= index[m] <= m
    ensures index[0] == 0 || index[0] == -1
    ensures LoopState(previous, V[..], index[..], gap)
            == Rounds(UtilityTable(log, Grid(1.0, 100)), 0.9,
                      LoopState(seq(100, _ => 0.0), seq(100, _ => 0.0), seq(100, _ => 0), 1.0001), iterations)
    ensures V[..] == Iterate(UtilityTable(log, Grid(1.0, 100)), 0.9, seq(100, _ => 0.0), iterations)
    ensures GapAboveBefore(UtilityTable(log, Grid(1.0, 100)), 0.9,
                           LoopState(seq(100, _ => 0.0), seq(100, _ => 0.0), seq(100, _ => 0), 1.0001), 0.0001, iterations)
  {
    var k0 := 1.0;
    var beta := 0.9;
    var kpoints := 100;
    var tol := 0.0001;

    cakeVector := BuildGrid(k0, kpoints);
    GridEnds(k0, kpoints);
    var consum := BuildConsumption(cakeVector, kpoints);
    var utility := BuildUtility(consum, kpoints, log);
    UtilityMatchesGrid(log, cakeVector, consum, utility, kpoints);
    ghost var U := UtilityTable(log, cakeVector[..]);
    var V0 := ZeroVector(kpoints);
    assert V0[..] == seq(kpoints, _ => 0.0);
    var profit := new Float64[kpoints, kpoints]((_, _) => Num(0.0));
    var aux := new real[kpoints, kpoints];
    var index0 := new int[kpoints](_ => 0);
    assert index0[..] == seq(kpoints, _ => 0);
    ghost var s0 := LoopState(V0[..], V0[..], index0[..], tol + 1.0);
    V, index, gap, iterations, previous := Converge(utility, beta, V0, index0, kpoints, tol, aux, profit, maxIter, U);
    RoundsIterate(U, beta, s0, iterations);
    PolicyOfRounds(log, cakeVector[..], beta, s0, iterations);
  }

  /** The utility array the pipeline builds holds, row by row, the utility rows of the grid. */
  lemma UtilityMatchesGrid(log: real -> real, cakeVector: array<real>, consum: array2<Float64>,
                           utility: array2<Float64>, kpoints: nat)
    requires cakeVector.Length == kpoints
    requires consum.Length0 == kpoints && consum.Length1 == kpoints
    requires utility.Length0 == kpoints && utility.Length1 == kpoints
    requires forall m, n :: 0 <= m < kpoints && 0 <= n < kpoints ==>
               consum[m, n] == Consumption(cakeVector[..], m, n)
    requires forall m, n :: 0 <= m < kpoints && 0 <= n < kpoints ==>
               utility[m, n] == UtilityFunction(log, consum[m, n])
    ensures forall m :: 0 <= m < kpoints ==> Row(utility, m, kpoints) == UtilityRow(log, cakeVector[..], m)
    ensures Stores(utility, UtilityTable(log, cakeVector[..]))
  {
  }

  /**
   * Whatever the value vector, the policy drawn from the grid's utility rows
   * never moves to a larger stock, and in row 0 it is 0 or the sentinel -1.
   */
  lemma PolicyFeasible(log: real -> real, cakeVector: seq<real>, beta: real, previous: seq<real>)
    requires |previous| == |cakeVector|
    ensures forall m :: 0 <= m < |cakeVector| ==> -1 <= Policy(UtilityTable(log, cakeVector), beta, previous)[m] <= m
    ensures |cakeVector| > 0 ==>
              Policy(UtilityTable(log, cakeVector), beta, previous)[0] == 0
              || Policy(UtilityTable(log, cakeVector), beta, previous)[0] == -1
  {
    var U := UtilityTable(log, cakeVector);
    forall m | 0 <= m < |cakeVector|
      ensures -1 <= Policy(U, beta, previous)[m] <= m
    {
      var row := ProfitRow(UtilityRow(log, cakeVector, m), beta, previous);
      forall n | m < n < |row| ensures row[n].NaN? {
        UtilityRowShape(log, cakeVector, m, n);
        ProfitRowKeepsInfeasible(UtilityRow(log, cakeVector, m), beta, previous, n);
      }
      RowMaxFeasible(row, m);
    }
  }

  /** The policy the loop leaves is feasible, from an all-zero start policy or after any round. */
  lemma PolicyOfRounds(log: real -> real, cakeVector: seq<real>, beta: real, s0: LoopState, k: nat)
    requires |cakeVector| >= 1 && |s0.V| == |cakeVector|
    requires s0.index == seq(|cakeVector|, _ => 0)
    ensures forall m :: 0 <= m < |cakeVector| ==> -1 <= Rounds(UtilityTable(log, cakeVector), beta, s0, k).index[m] <= m
    ensures Rounds(UtilityTable(log, cakeVector), beta, s0, k).index[0] == 0
            || Rounds(UtilityTable(log, cakeVector), beta, s0, k).index[0] == -1
  {
    if k > 0 {
      PolicyFeasible(log, cakeVector, beta, Rounds(UtilityTable(log, cakeVector), beta, s0, k - 1).V);
    }
  }
}
