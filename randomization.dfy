/** Boundary randomization (src/randomization.py, steps 3 and 4). The
    distance field that the Euclidean distance transform computes and the
    per-voxel thresholds that the seeded generator draws are parameters. */
module Randomization {
  import opened Grids

  /** Step 3's rule for one voxel: a strictly positive distance no larger
      than the voxel's own threshold. */
  predicate Grows(distance: real, threshold: real) {
    0.0 < distance && distance <= threshold
  }

  /** Thresholds as `uniform(0, maxDistanceMm)` draws them: in
      [0, maxDistanceMm), and exactly 0 when the range is empty. */
  ghost predicate ThresholdsDrawn(threshold: Grid<real>, s: Shape, maxDistanceMm: real)
    requires Shaped(threshold, s)
  {
    forall i, j, k | InShape(s, i, j, k) ::
      0.0 <= threshold[i][j][k] && (threshold[i][j][k] < maxDistanceMm || threshold[i][j][k] == maxDistanceMm == 0.0)
  }

  /** The randomized region: voxels the growth rule adds. */
  function RandomizedRegion(distance: Grid<real>, threshold: Grid<real>, s: Shape): (region: Grid<bool>)
    requires Shaped(distance, s) && Shaped(threshold, s)
    ensures Shaped(region, s)
    ensures forall i, j, k | InShape(s, i, j, k) ::
      region[i][j][k] <==> distance[i][j][k] > 0.0 && distance[i][j][k] <= threshold[i][j][k]
  {
    seq(s.n0, i requires 0 <= i < s.n0 =>
      seq(s.n1, j requires 0 <= j < s.n1 =>
        seq(s.n2, k requires 0 <= k < s.n2 =>
          Grows(distance[i][j][k], threshold[i][j][k]))))
  }

  /** generate_randomized_mask: the original mask OR-ed with the region,
      as a 0/1 grid of the mask's shape. */
  function GenerateRandomizedMask(mask: Grid<int>, s: Shape, distance: Grid<real>, threshold: Grid<real>): (out: Grid<int>)
    requires Shaped(mask, s) && IsBinary(mask, s)
    requires Shaped(distance, s) && Shaped(threshold, s)
    ensures Shaped(out, s) && IsBinary(out, s)
    ensures Within(mask, out, s)
  {
    var region := RandomizedRegion(distance, threshold, s);
    seq(s.n0, i requires 0 <= i < s.n0 =>
      seq(s.n1, j requires 0 <= j < s.n1 =>
        seq(s.n2, k requires 0 <= k < s.n2 =>
          if mask[i][j][k] == 1 || region[i][j][k] then 1 else 0)))
  }

  /** A voxel is new in the output exactly when the growth rule holds there;
      a voxel at distance 0 keeps its original value. */
  lemma AddedIffGrows(mask: Grid<int>, s: Shape, distance: Grid<real>, threshold: Grid<real>, i: int, j: int, k: int)
    requires Shaped(mask, s) && IsBinary(mask, s)
    requires Shaped(distance, s) && Shaped(threshold, s)
    requires InShape(s, i, j, k)
    ensures var out := GenerateRandomizedMask(mask, s, distance, threshold);
      (out[i][j][k] == 1 && mask[i][j][k] == 0 <==> mask[i][j][k] == 0 && 0.0 < distance[i][j][k] <= threshold[i][j][k]) &&
      (distance[i][j][k] == 0.0 ==> out[i][j][k] == mask[i][j][k])
  {
  }

  /** Every added voxel lies closer than the maximal distance. */
  lemma AddedCloserThanMax(mask: Grid<int>, s: Shape, distance: Grid<real>, threshold: Grid<real>, maxDistanceMm: real)
    requires Shaped(mask, s) && IsBinary(mask, s)
    requires Shaped(distance, s) && Shaped(threshold, s)
    requires ThresholdsDrawn(threshold, s, maxDistanceMm)
    ensures forall i, j, k | InShape(s, i, j, k) && mask[i][j][k] == 0 &&
      GenerateRandomizedMask(mask, s, distance, threshold)[i][j][k] == 1 :: 0.0 < distance[i][j][k] < maxDistanceMm
  {
  }

  /** With a maximal distance of 0 every threshold is 0, nothing grows and the
      output is the original mask. */
  lemma {:induction false} ZeroMaxDistanceIsIdentity(mask: Grid<int>, s: Shape, distance: Grid<real>, threshold: Grid<real>)
    requires Shaped(mask, s) && IsBinary(mask, s)
    requires Shaped(distance, s) && Shaped(threshold, s)
    requires ThresholdsDrawn(threshold, s, 0.0)
    ensures GenerateRandomizedMask(mask, s, distance, threshold) == mask
  {
    var out := GenerateRandomizedMask(mask, s, distance, threshold);
    GridExtensionality(out, mask, s);
  }

  /** Raising thresholds never removes a voxel from the output. */
  lemma ThresholdMonotone(mask: Grid<int>, s: Shape, distance: Grid<real>, t1: Grid<real>, t2: Grid<real>)
    requires Shaped(mask, s) && IsBinary(mask, s)
    requires Shaped(distance, s) && Shaped(t1, s) && Shaped(t2, s)
    requires forall i, j, k | InShape(s, i, j, k) :: t1[i][j][k] <= t2[i][j][k]
    ensures Within(GenerateRandomizedMask(mask, s, distance, t1), GenerateRandomizedMask(mask, s, distance, t2), s)
  {
  }
}
