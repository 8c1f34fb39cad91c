/** Three-dimensional voxel grids as nested sequences, indexed g[i][j][k]
    in the axis order of the arrays the pipeline works on. */
module Grids {

  type Grid<T> = seq<seq<seq<T>>>

  /** The extent of a grid along its three axes. */
  datatype Shape = Shape(n0: nat, n1: nat, n2: nat)

  predicate InShape(s: Shape, i: int, j: int, k: int) {
    0 <= i < s.n0 && 0 <= j < s.n1 && 0 <= k < s.n2
  }

  /** `g` is a regular (box-shaped) grid of shape `s`. */
  predicate Shaped<T>(g: Grid<T>, s: Shape) {
    |g| == s.n0 &&
    forall i | 0 <= i < s.n0 ::
      |g[i]| == s.n1 && forall j | 0 <= j < s.n1 :: |g[i][j]| == s.n2
  }

  /** Every voxel holds 0 or 1. */
  ghost predicate IsBinary(g: Grid<int>, s: Shape)
    requires Shaped(g, s)
  {
    forall i, j, k | InShape(s, i, j, k) :: g[i][j][k] == 0 || g[i][j][k] == 1
  }

  /** Every voxel holds a value of an unsigned 8-bit type. */
  ghost predicate IsByteGrid(g: Grid<int>, s: Shape)
    requires Shaped(g, s)
  {
    forall i, j, k | InShape(s, i, j, k) :: 0 <= g[i][j][k] <= 255
  }

  /** Every foreground (non-zero) voxel of `a` is foreground in `b`. */
  ghost predicate Within(a: Grid<int>, b: Grid<int>, s: Shape)
    requires Shaped(a, s) && Shaped(b, s)
  {
    forall i, j, k | InShape(s, i, j, k) :: a[i][j][k] != 0 ==> b[i][j][k] != 0
  }

  /** Two grids of one shape that agree voxel by voxel are the same grid. */
  lemma {:induction false} GridExtensionality<T>(a: Grid<T>, b: Grid<T>, s: Shape)
    requires Shaped(a, s) && Shaped(b, s)
    requires forall i, j, k | InShape(s, i, j, k) :: a[i][j][k] == b[i][j][k]
    ensures a == b
  {
    forall i | 0 <= i < s.n0 ensures a[i] == b[i] {
      forall j | 0 <= j < s.n1 ensures a[i][j] == b[i][j] {
        assert forall k | 0 <= k < s.n2 :: a[i][j][k] == b[i][j][k];
      }
    }
  }

  /** The contents of a three-dimensional array agree with the grid `g`. */
  ghost predicate ArrayHolds(a: array3<int>, g: Grid<int>, s: Shape)
    reads a
    requires Shaped(g, s)
  {
    a.Length0 == s.n0 && a.Length1 == s.n1 && a.Length2 == s.n2 &&
    forall i, j, k | InShape(s, i, j, k) :: a[i, j, k] == g[i][j][k]
  }
}
