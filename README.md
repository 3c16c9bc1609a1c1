# Value-function iteration for the cake-eating problem

This project models the solver in `src/cakeDP.go` and its benchmark copy in
`src/cakeDPSpeedTest.go`. The solver discretises the stock of a cake into a
uniform grid. It precomputes a lower-triangular consumption table and its
logarithm, the utility table. It then iterates the Bellman operator
`V(k) = max over k' <= k of log(k - k') + beta * V(k')` until the L1 gap
between successive value vectors drops to the tolerance.

The model keeps the program's imperative form:

- the grid, the value vectors and the policy are Dafny arrays;
- the consumption, utility, `aux` and `profit` matrices are two-dimensional
  arrays, filled by the same nested loops as in the source;
- `aux` and `profit` are preallocated once and overwritten in place in every round.

Each loop is proved against a specification function:

- `Grid` for the grid;
- `Consumption` and `UtilityFunction` for the tables;
- `ProfitRow` for the Bellman right-hand side;
- `ScanRow`/`RowMax` for the row maximiser;
- `L1Distance` for the gap.

Lemmas then state what the source promises about those functions. The
convergence loop is tied to `Rounds`, the k-fold application of one round
(`NextState`) to the loop's state (previous vector, value vector, policy,
gap). `BellmanStep` gives every row's maximum payoff and `Policy` its first
maximising column. Lemmas connect `Rounds` to `Iterate`, the k-fold
`BellmanStep` of the starting vector: after k rounds the value vector is the
k-th iterate, whatever k is. The row
maximiser's scan is tied to an independent description (`IsFirstArgmax`): the
first feasible column holding the row's maximum, or the sentinel when nothing
beats -1000000.

Other modelling choices:

- **Numbers.** Go's `float64` becomes `Floats.Float64`, which is a `real` or
  `NaN`. NaN is the source's marker for an infeasible transition (next stock
  above the current one). It loses every comparison (`Floats.Gt`) and absorbs
  every sum (`Floats.Add`).
- **Logarithm.** `math.Log` is a function-valued parameter `log: real -> real`,
  about which nothing is assumed.
- **Goroutines.** Each goroutine in the source writes only its own row. So
  each parallel phase is a sequential loop over rows, and every per-row
  method (`AuxConcurrent`, `ProfitConcurrent`, `MaxConcurrent`) states that
  nothing outside its row changes.
- **Shared helpers.** `src/cakeDPSpeedTest.go` repeats `calGap`, `maxMatrix`,
  `maxCuncurrent`, `bellmanOperation`, `auxCuncurrent`, `profitCuncurrent` and
  `utilityFuncition` line for line (lines 121-210). Those copies are modelled
  by the same members of `CakeDP`. `SpeedTest.ValueIteration` models the
  parameterised pipeline of lines 30-119.

The model follows the code where it departs from a cleaner design of the same solver:

- The code marks infeasible entries with NaN, not negative infinity.
- The code does not reject `kpoints < 2`, `beta` outside (0,1) or `tol <= 0`.
- A row in which nothing beats -1000000 keeps index -1 and value -1000000,
  rather than raising an error.
- The discounted vector `beta*V` is recomputed for every row of `aux`.

## Model

| member | source | states |
|---|---|---|
| Floats.Gt | src/cakeDP.go:142 | a comparison `x > b` is false whenever `x` is NaN, so an infeasible entry never wins |
| Floats.Add | src/cakeDP.go:187 | `utility + aux` is NaN exactly when the utility entry is NaN, and otherwise differs from it by the added term |
| Floats.Abs | src/cakeDP.go:114 | `math.Abs` is non-negative and equals `x` or `-x` |
| CakeDP.Increment | src/cakeDP.go:22 | `kincr` is the step that takes kpoints-1 increments exactly to k0 |
| CakeDP.BuildGrid | src/cakeDP.go:22-33 | the loop that adds `kincr` repeatedly leaves `cakeVector` equal to `Grid(k0, kpoints)`: entry i is `i * k0/(kpoints-1)` for i >= 1, and entry 0 is 6.3829e-4 |
| CakeDP.GridEnds | src/cakeDP.go:22-33 | with at least two points the grid starts at 6.3829e-4 and its last entry is exactly k0 |
| CakeDP.GridIncreasing | src/cakeDP.go:22-33 | for k0 > 0, grid points from index 1 on are positive and strictly increasing |
| CakeDP.GridSpacing | src/cakeDP.go:22-33 | uniform spacing: `grid[i] - grid[j] == grid[i-j]` for 1 <= j < i |
| CakeDP.Consumption | src/cakeDP.go:41-51 | the consumption entry (m, n) is NaN exactly when n > m, and otherwise is a grid value |
| CakeDP.ConsumptionColumnZero | src/cakeDP.go:41-51 | column 0 of every row is feasible and holds the whole stock `cakeVector[m]` |
| CakeDP.ConsumptionIsStockDrop | src/cakeDP.go:41-51 | on the grid, consumption from m to n (1 <= n < m) equals `grid[m] - grid[n]`, so no subtraction table is needed |
| CakeDP.BuildConsumption | src/cakeDP.go:35-51 | the nested loop that walks k down from m fills every entry (m, n) with `cakeVector[m-n]` for n <= m and with NaN above the diagonal |
| CakeDP.UtilityFunction | src/cakeDP.go:193-196 | `utilityFuncition` yields NaN exactly for a NaN argument |
| CakeDP.UtilityRowShape | src/cakeDP.go:59-63 | a utility entry is NaN exactly when n > m, and otherwise is `log(cakeVector[m-n])` |
| CakeDP.BuildUtility | src/cakeDP.go:54-63 | every entry of the utility table is the utility function applied to the consumption entry at the same position |
| CakeDP.UtilityMatchesGrid | src/cakeDP.go:54-63 | each row of the utility array that the pipeline builds equals the utility row derived from the grid |
| CakeDP.ZeroVector | src/cakeDP.go:65-71 | the initial value vector has kpoints entries, all zero |
| CakeDP.ProfitRowKeepsInfeasible | src/cakeDP.go:184-191 | a profit entry is NaN exactly where the utility entry is, and otherwise equals `utility + beta*V[n]` |
| CakeDP.AuxConcurrent | src/cakeDP.go:175-182 | row m of `aux` becomes `V[n]*beta` and no other entry of `aux` changes |
| CakeDP.ProfitConcurrent | src/cakeDP.go:184-191 | row m of `profit` becomes `utility[m][n] + aux[m][n]` and no other entry of `profit` changes |
| CakeDP.BellmanOperation | src/cakeDP.go:150-173 | afterwards every row of `aux` equals `beta*V`, `profit[m][n] = utility[m][n] + beta*V[n]` everywhere, each profit row is `ProfitRow` of its utility row, the returned matrix is the `profit` passed in, and no entry outside the `length` x `length` block of either matrix changes |
| CakeDP.ScanRowIsFirstArgmax | src/cakeDP.go:140-148 | the strict-`>` scan from a start value returns the start when no entry beats it, and otherwise a feasible column above the start that no feasible entry exceeds and before which every feasible entry is strictly smaller |
| CakeDP.FirstArgmaxUnique | src/cakeDP.go:140-148 | that description has a single solution, so it pins down the scan's outcome completely |
| CakeDP.RowMaxSpec | src/cakeDP.go:126-146 | starting from -1000000 and -1, the index stays -1 and the value stays -1000000 exactly when no entry is strictly above -1000000; otherwise the value is the entry at the index, the maximum over feasible entries, and the first column attaining it |
| CakeDP.RowMaxFeasible | src/cakeDP.go:140-148 | if every column beyond m is NaN, the chosen index lies between -1 and m and names a feasible column |
| CakeDP.RowMaxFirstRow | src/cakeDP.go:140-148 | in row 0 only column 0 is feasible; the index is 0 exactly when that payoff beats -1000000, and -1 otherwise |
| CakeDP.MaxConcurrent | src/cakeDP.go:140-148 | row m's slots become the scan of row m from their previous contents; all other slots of `maxValue` and `maxIndex` stay unchanged |
| CakeDP.MaxMatrix | src/cakeDP.go:119-138 | for every row, `(maxValue[m], maxIndex[m])` is the row maximum from the sentinel -1000000 and index -1 |
| CakeDP.L1DistanceNonNegative | src/cakeDP.go:110-117 | the L1 gap is never negative |
| CakeDP.L1DistanceZeroIff | src/cakeDP.go:110-117 | the gap is zero exactly when the new vector equals the old one on the old one's indices |
| CakeDP.L1DistanceSymmetric | src/cakeDP.go:110-117 | the gap between two vectors of the same length does not depend on their order |
| CakeDP.CalGap | src/cakeDP.go:110-117 | the accumulated gap is the sum of `abs(newV[i] - V[i])` over the indices of V, and is non-negative |
| CakeDP.BellmanUpdateIsStep | src/cakeDP.go:96-97 | a value vector and policy that are, row by row, the first maximum of utility plus discounted `previous` are exactly `BellmanStep` and `Policy` of `previous` |
| CakeDP.BellmanRound | src/cakeDP.go:96-97 | one round's new value vector and policy are, row by row, the first maximum of utility plus beta times the current V, so the new vector is the Bellman step of the current one |
| CakeDP.ZeroGapIsFixedPoint | src/cakeDP.go:93-100 | when the gap between iterate k and iterate k+1 is zero, iterate k is a fixed point of the Bellman step |
| CakeDP.FixedPointIsFinal | src/cakeDP.go:93-100 | once an iterate is a fixed point of the Bellman step, every later iterate equals it, so further rounds change nothing |
| CakeDP.NextStateIsBellmanUpdate | src/cakeDP.go:94-99 | after one round the gap is the L1 distance between the old and new value vectors, and in every row the policy is -1 with value -1000000 when no feasible `utility + beta*V` exceeds -1000000, and otherwise the first feasible column maximising `utility + beta*V`, whose payoff is the new value (`IsBestChoice`) |
| CakeDP.RoundsIterate | src/cakeDP.go:93-100 | after k rounds the value vector is the k-th Bellman iterate of the start and, for k > 0, `previous` is the (k-1)-th |
| CakeDP.ConvergeRound | src/cakeDP.go:94-99 | one pass of the loop body turns the loop state into its `NextState`: V becomes `previous`, the new V and policy are the Bellman step and policy of V, and gap is their L1 distance |
| CakeDP.GapAboveBeforeNext | src/cakeDP.go:94 | a round whose gap is above `tol` lets the `gap > tol` loop go on: every round up to and including it left a gap above `tol` |
| CakeDP.Converge | src/cakeDP.go:87-100 | the loop starts from `gap = tol + 1` and so runs at least once; on exit either `gap <= tol` or the cap is reached, and every earlier round left a gap above `tol` (`GapAboveBefore`), so the loop stops at the first round whose gap is at most `tol`; the state (previous, V, policy, gap) equals `Rounds` of the start state after `iterations` rounds |
| CakeDP.PolicyFeasible | src/cakeDP.go:44-48 | for any value vector, the policy drawn from the grid's utility rows never exceeds the row index, and in row 0 it is 0 or -1 |
| CakeDP.PolicyOfRounds | src/cakeDP.go:44-48 | from the all-zero start policy, the policy after any number of rounds is feasible in the same sense |
| CakeDP.RunMain | src/cakeDP.go:13-100 | with k0 = 1, beta = 0.9, 100 points and tolerance 0.0001: the grid runs from 6.3829e-4 to 1, the policy is feasible, the loop state is `Rounds` of the zero start over the grid's utility table, every round before the last left a gap above 0.0001, and V is the `iterations`-th Bellman iterate of the zero vector |
| SpeedTest.ValueIteration | src/cakeDPSpeedTest.go:30-119 | the same pipeline for the caller's k0, beta, grid size and tolerance: the grid is `Grid(k0, kpoints)` ending at k0, the loop runs at least once and stops with `gap <= tol` (or at the cap), the policy never exceeds the row index, the loop state is `Rounds` of the zero start, every round before the last left a gap above `tol`, and V is the `iterations`-th Bellman iterate of the zero vector |

## Left out

- Goroutines, `sync.WaitGroup` and `runtime.GOMAXPROCS` (src/cakeDP.go:11, 124-147, 154-170). Every task writes only its own row, so each phase is modelled as a sequential loop over rows.
- Floating-point rounding and the infinities. Values are exact reals. The repeated `incPoint + kincr` accumulation is exact, so the grid equals `i * kincr`.
- `math.Log` of a non-positive number (NaN or -Inf in Go). `log` is an arbitrary real function, applied only to the non-NaN consumption entries.
- SpeedTest.ValueIteration: k0 <= 0 is not modelled. Every grid point from index 1 on is then zero or negative, and `math.Log` gives -Inf or NaN for it, so the program can pick only column m in row m >= 1; the model's `log` returns a real number there, which can win the comparison.
- CakeDP.Increment: with a single grid point the source computes `k0/0`. That value is never stored, so the model uses 0 there and its contract speaks only of two or more points.
- `kpoints = 0` makes the source panic on `cakeVector[0]`. `BuildGrid`, `RunMain` and `ValueIteration` require at least one point.
- CakeDP.Converge: the source loops while `gap > tol` with no bound, and its termination rests on a contraction argument over real logarithms. The model adds an iteration cap `maxIter`, so it also returns when the cap is reached with `gap > tol`.
- CakeDP.RunMain: same cap as `Converge`. The final printing of `cakeVector[index[i]]` and of `index` (src/cakeDP.go:103-107) is replaced by returning the grid, V and the policy.
- SpeedTest.ValueIteration: same cap as `Converge`. The timing (`time.Now`, `time.Since`) and the averaging `main` (src/cakeDPSpeedTest.go:11-28) are not modelled. The method returns the computed grid, V and policy instead of a duration.
- The unused preallocation of `newV` (src/cakeDP.go:73) and the self-assignment `index = index` (src/cakeDPSpeedTest.go:116).
- Economic and numerical claims: monotone V, the policy approximating a (1-beta) consumption share, and the contraction of the gap. They need analysis of the logarithm that the code neither performs nor promises.
