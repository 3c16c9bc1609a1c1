/**
 * The benchmark driver (src/cakeDPSpeedTest.go). Its `valueIteration` runs
 * the same pipeline as the solver's `main`, with k0, beta, the grid size and
 * the tolerance as parameters; its helpers are copies of the solver's and are
 * the members of CakeDP. The timing the driver returns is not modelled: the
 * method returns what the pipeline computes instead.
 */
module SpeedTest {
  import opened Floats
  import opened CakeDP

  /**
   * valueIteration: grid, consumption and utility tables, then the
   * convergence loop from the zero vector, reusing one `profit` and one `aux`
   * matrix across rounds. `maxIter` caps the rounds, which the source leaves
   * unbounded.
   */
  method ValueIteration(k0: real, beta: real, kpoints: nat, tol: real, log: real -> real, maxIter: nat)
    returns (cakeVector: array<real>, V: array<real>, index: array<int>, gap: real, iterations: nat,
             ghost previous: seq<real>)
    requires kpoints >= 1
    ensures cakeVector[..] == Grid(k0, kpoints)
    ensures cakeVector[0] == Epsilon
    ensures kpoints >= 2 ==> cakeVector[kpoints - 1] == k0
    ensures V.Length == kpoints && index.Length == kpoints
    ensures maxIter > 0 ==> iterations > 0
    ensures gap > tol ==> iterations == maxIter
    ensures forall m :: 0 <= m < kpoints ==> -1 <= index[m] <= m
    ensures index[0] == 0 || index[0] == -1
    ensures LoopState(previous, V[..], index[..], gap)
            == Rounds(UtilityTable(log, Grid(k0, kpoints)), beta,
                      LoopState(seq(kpoints, _ => 0.0), seq(kpoints, _ => 0.0), seq(kpoints, _ => 0), tol + 1.0),
                      iterations)
    ensures V[..] == Iterate(UtilityTable(log, Grid(k0, kpoints)), beta, seq(kpoints, _ => 0.0), iterations)
    ensures GapAboveBefore(UtilityTable(log, Grid(k0, kpoints)), beta,
                           LoopState(seq(kpoints, _ => 0.0), seq(kpoints, _ => 0.0), seq(kpoints, _ => 0), tol + 1.0),
                           tol, iterations)
  {
    cakeVector := BuildGrid(k0, kpoints);
    if kpoints >= 2 {
      GridEnds(k0, kpoints);
    }
    var consum := BuildConsumption(cakeVector, kpoints);
    var utility := BuildUtility(consum, kpoints, log);
    UtilityMatchesGrid(log, cakeVector, consum, utility, kpoints);
    ghost var U := UtilityTable(log, cakeVector[..]);
    var V0 := ZeroVector(kpoints);
    assert V0[..] == seq(kpoints, _ => 0.0);
    var profit := new Float64[kpoints, kpoints]((_, _) => Num(0.0));
    var aux := new real[kpoints, kpoints];
    var index0 := new int[kpoints](_ => 0);
    assert index0[..] == seq(kpoints, _ => 0);
    ghost var s0 := LoopState(V0[..], V0[..], index0[..], tol + 1.0);
    V, index, gap, iterations, previous := Converge(utility, beta, V0, index0, kpoints, tol, aux, profit, maxIter, U);
    RoundsIterate(U, beta, s0, iterations);
    PolicyOfRounds(log, cakeVector[..], beta, s0, iterations);
  }
}
