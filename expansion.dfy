/** Mask expansion: a millimetre distance becomes a per-axis voxel radius,
    the radius an ellipsoidal structuring element, and the mask is dilated
    with it (src/expansion.py). Real numbers stand for the source's floats. */
module Expansion {
  import opened Grids

  /** The least integer not below `x` (numpy's ceil, on exact reals). */
  function Ceil(x: real): (c: int)
    ensures x <= c as real < x + 1.0
  {
    -((-x).Floor)
  }

  /** Voxel radius along an axis of spacing `s` mm for an expansion of
      `expandMm` mm: the fewest whole voxels that cover the distance. */
  function AxisRadius(expandMm: real, s: real): (r: int)
    requires s > 0.0
    ensures r as real * s >= expandMm
    ensures (r - 1) as real * s < expandMm
    ensures expandMm > 0.0 ==> r >= 1
  {
    CeilCovers(expandMm, s);
    Ceil(expandMm / s)
  }

  lemma CeilCovers(e: real, s: real)
    requires s > 0.0
    ensures Ceil(e / s) as real * s >= e
    ensures (Ceil(e / s) - 1) as real * s < e
  {
    var q := e / s;
    var c := Ceil(q);
    assert q * s == e;
    ScaleMonotone(q, c as real, s);
    assert (c - 1) as real < q;
    ScaleStrict((c - 1) as real, q, s);
    assert (c - 1) as real * s < q * s;
    assert (c - 1) as real * s < e;
  }

  lemma ScaleMonotone(x: real, y: real, s: real)
    requires x <= y && s > 0.0
    ensures x * s <= y * s
  {
  }

  lemma ScaleStrict(x: real, y: real, s: real)
    requires x < y && s > 0.0
    ensures x * s < y * s
  {
  }

  /** get_voxel_radius: one radius per spacing entry, in the same axis order,
      each the ceiling of the expansion over that axis's spacing. */
  function VoxelRadius(expandMm: real, spacing: seq<real>): (radius: seq<int>)
    requires forall a | 0 <= a < |spacing| :: spacing[a] > 0.0
    ensures |radius| == |spacing|
    ensures forall a | 0 <= a < |spacing| ::
      radius[a] as real * spacing[a] >= expandMm && (radius[a] - 1) as real * spacing[a] < expandMm
    ensures expandMm > 0.0 ==> forall a | 0 <= a < |spacing| :: radius[a] >= 1
  {
    seq(|spacing|, a requires 0 <= a < |spacing| => AxisRadius(expandMm, spacing[a]))
  }

  /** A radius the kernel can be built from: three axes, none of radius 0. */
  predicate ValidRadius(r: seq<int>) {
    |r| >= 3 && r[0] >= 1 && r[1] >= 1 && r[2] >= 1
  }

  function Sq(x: int): int { x * x }

  /** Offset (d0, d1, d2) lies in the ellipsoid of radii r[0], r[1], r[2]:
      (d0/r0)² + (d1/r1)² + (d2/r2)² <= 1, multiplied through by (r0 r1 r2)². */
  predicate InEllipsoid(r: seq<int>, d0: int, d1: int, d2: int): (inside: bool)
    requires |r| >= 3
    ensures inside && r[0] != 0 && r[1] != 0 && r[2] != 0 ==>
      Sq(d0) <= Sq(r[0]) && Sq(d1) <= Sq(r[1]) && Sq(d2) <= Sq(r[2])
  {
    var holds := Sq(d0) * (Sq(r[1]) * Sq(r[2])) + Sq(d1) * (Sq(r[0]) * Sq(r[2])) + Sq(d2) * (Sq(r[0]) * Sq(r[1]))
      <= Sq(r[0]) * (Sq(r[1]) * Sq(r[2]));
    if holds && r[0] != 0 && r[1] != 0 && r[2] != 0 then
      TermsWithinBox(Sq(d0), Sq(d1), Sq(d2), r[0], r[1], r[2]);
      holds
    else holds
  }

  /** If the three scaled squares sum to at most the full product, each
      square is at most its own radius squared: the ellipsoid lies inside the
      box `|di| <= |ri|` that the kernel's `ogrid` ranges span. */
  lemma TermsWithinBox(q0: int, q1: int, q2: int, r0: int, r1: int, r2: int)
    requires q0 >= 0 && q1 >= 0 && q2 >= 0 && r0 != 0 && r1 != 0 && r2 != 0
    requires q0 * (Sq(r1) * Sq(r2)) + q1 * (Sq(r0) * Sq(r2)) + q2 * (Sq(r0) * Sq(r1))
      <= Sq(r0) * (Sq(r1) * Sq(r2))
    ensures q0 <= Sq(r0) && q1 <= Sq(r1) && q2 <= Sq(r2)
  {
    var p0, p1, p2 := Sq(r0), Sq(r1), Sq(r2);
    SqPositive(r0);
    SqPositive(r1);
    SqPositive(r2);
    var m0, m1, m2 := p1 * p2, p0 * p2, p0 * p1;
    PositiveProduct(p1, p2);
    PositiveProduct(p0, p2);
    PositiveProduct(p0, p1);
    var t0, t1, t2 := q0 * m0, q1 * m1, q2 * m2;
    NonNegativeProduct(q0, m0);
    NonNegativeProduct(q1, m1);
    NonNegativeProduct(q2, m2);
    var total := p0 * m0;
    assert p1 * m1 == total by { Rotate(p0, p1, p2); }
    assert p2 * m2 == total by { Rotate(p0, p2, p1); Rotate(p2, p1, p0); }
    ScaledBound(q0, p0, m0);
    ScaledBound(q1, p1, m1);
    ScaledBound(q2, p2, m2);
  }

  lemma SqPositive(x: int)
    requires x != 0
    ensures Sq(x) > 0
  {
    if x < 0 {
      PositiveProduct(-x, -x);
    } else {
      PositiveProduct(x, x);
    }
  }

  lemma NonNegativeProduct(x: int, y: int)
    requires x >= 0 && y > 0
    ensures x * y >= 0
  {
  }

  lemma ScaledBound(q: int, p: int, m: int)
    requires m > 0 && q * m <= p * m
    ensures q <= p
  {
  }

  /** (d / r)², the contribution of one axis to the ellipsoid sum. */
  function Ratio2(d: int, r: int): real
    requires r != 0
  {
    (d as real / r as real) * (d as real / r as real)
  }

  /** The ellipsoid sum as the source evaluates it, on exact reals. */
  function EllipsoidSum(r: seq<int>, d0: int, d1: int, d2: int): real
    requires ValidRadius(r)
  {
    Ratio2(d0, r[0]) + Ratio2(d1, r[1]) + Ratio2(d2, r[2])
  }

  lemma Ratio2Scaled(d: int, r: int, m: int)
    requires r != 0
    ensures Ratio2(d, r) * (Sq(r) * m) as real == (Sq(d) * m) as real
  {
    var q := d as real / r as real;
    assert q * r as real == d as real;
    calc {
      Ratio2(d, r) * (Sq(r) * m) as real;
      (q * q) * ((r as real * r as real) * m as real);
      ((q * r as real) * (q * r as real)) * m as real;
      (d as real * d as real) * m as real;
      (Sq(d) * m) as real;
    }
  }

  /** The integer membership test is the source's real-valued test
      `(dz/r0)**2 + (dy/r1)**2 + (dx/r2)**2 <= 1.0`, exactly. */
  lemma {:induction false} InEllipsoidIffSum(r: seq<int>, d0: int, d1: int, d2: int)
    requires ValidRadius(r)
    ensures InEllipsoid(r, d0, d1, d2) <==> EllipsoidSum(r, d0, d1, d2) <= 1.0
  {
    var p0, p1, p2 := Sq(r[0]), Sq(r[1]), Sq(r[2]);
    var p := p0 * (p1 * p2);
    assert p1 * p2 > 0 by { PositiveProduct(p1, p2); }
    assert p > 0 by { PositiveProduct(p0, p1 * p2); }
    Ratio2Scaled(d0, r[0], p1 * p2);
    Ratio2Scaled(d1, r[1], p0 * p2);
    Ratio2Scaled(d2, r[2], p0 * p1);
    assert p1 * (p0 * p2) == p by { Rotate(p0, p1, p2); }
    assert p2 * (p0 * p1) == p by { Rotate(p0, p2, p1); }
    SumScaled(Ratio2(d0, r[0]), Ratio2(d1, r[1]), Ratio2(d2, r[2]),
      Sq(d0) * (p1 * p2), Sq(d1) * (p0 * p2), Sq(d2) * (p0 * p1), p);
  }

  lemma Rotate(x: int, y: int, z: int)
    ensures y * (x * z) == x * (y * z)
  {
  }

  lemma SumScaled(x0: real, x1: real, x2: real, t0: int, t1: int, t2: int, p: int)
    requires p > 0
    requires x0 * p as real == t0 as real && x1 * p as real == t1 as real && x2 * p as real == t2 as real
    ensures x0 + x1 + x2 <= 1.0 <==> t0 + t1 + t2 <= p
  {
    var sum := x0 + x1 + x2;
    assert sum * p as real == (t0 + t1 + t2) as real;
    if sum <= 1.0 {
      ScaleMonotone(sum, 1.0, p as real);
    } else {
      ScaleStrict(1.0, sum, p as real);
    }
  }

  lemma PositiveProduct(x: int, y: int)
    requires x > 0 && y > 0
    ensures x * y > 0
  {
  }

  /** The centre and the six tips of the axes are in the ellipsoid. */
  lemma CentreAndTipsIn(r: seq<int>)
    requires ValidRadius(r)
    ensures InEllipsoid(r, 0, 0, 0)
    ensures InEllipsoid(r, r[0], 0, 0) && InEllipsoid(r, -r[0], 0, 0)
    ensures InEllipsoid(r, 0, r[1], 0) && InEllipsoid(r, 0, -r[1], 0)
    ensures InEllipsoid(r, 0, 0, r[2]) && InEllipsoid(r, 0, 0, -r[2])
  {
    var p0, p1, p2 := Sq(r[0]), Sq(r[1]), Sq(r[2]);
    assert Sq(-r[0]) == p0 && Sq(-r[1]) == p1 && Sq(-r[2]) == p2;
    assert p0 * (p1 * p2) >= 0 by { PositiveProduct(p1, p2); PositiveProduct(p0, p1 * p2); }
    assert p1 * (p0 * p2) == p0 * (p1 * p2);
    assert p2 * (p0 * p1) == p0 * (p1 * p2);
  }

  /** The eight corners of the bounding box lie outside the ellipsoid. */
  lemma CornersOut(r: seq<int>, d0: int, d1: int, d2: int)
    requires ValidRadius(r)
    requires d0 == r[0] || d0 == -r[0]
    requires d1 == r[1] || d1 == -r[1]
    requires d2 == r[2] || d2 == -r[2]
    ensures !InEllipsoid(r, d0, d1, d2)
  {
    var p0, p1, p2 := Sq(r[0]), Sq(r[1]), Sq(r[2]);
    assert Sq(d0) == p0 && Sq(d1) == p1 && Sq(d2) == p2;
    var p := p0 * (p1 * p2);
    assert p > 0 by { PositiveProduct(p1, p2); PositiveProduct(p0, p1 * p2); }
    assert p1 * (p0 * p2) == p && p2 * (p0 * p1) == p;
  }

  /** The ellipsoid is unchanged by negating any offset component. */
  lemma EllipsoidSymmetric(r: seq<int>, d0: int, d1: int, d2: int)
    requires |r| >= 3
    ensures InEllipsoid(r, -d0, d1, d2) == InEllipsoid(r, d0, d1, d2)
    ensures InEllipsoid(r, d0, -d1, d2) == InEllipsoid(r, d0, d1, d2)
    ensures InEllipsoid(r, d0, d1, -d2) == InEllipsoid(r, d0, d1, d2)
  {
    assert Sq(-d0) == Sq(d0) && Sq(-d1) == Sq(d1) && Sq(-d2) == Sq(d2);
  }

  lemma Ratio2Shrinks(d: int, a: int, b: int)
    requires 1 <= a <= b
    ensures Ratio2(d, b) <= Ratio2(d, a)
  {
    var x := if d >= 0 then d as real else -d as real;
    var ua, ub := x / a as real, x / b as real;
    assert Ratio2(d, a) == ua * ua && Ratio2(d, b) == ub * ub;
    assert ub * b as real == x && ua * a as real == x;
    assert 0.0 <= ub <= ua by {
      if ub > ua {
        ScaleStrict(ua, ub, b as real);
        ScaleMonotone(a as real, b as real, ua);
      }
    }
    if ub > 0.0 {
      ScaleMonotone(ub, ua, ub);
      ScaleMonotone(ub, ua, ua);
    }
  }

  /** Kernels nest: a radius no larger on every axis gives a sub-ellipsoid. */
  lemma {:induction false} EllipsoidNests(ra: seq<int>, rb: seq<int>, d0: int, d1: int, d2: int)
    requires ValidRadius(ra) && ValidRadius(rb)
    requires ra[0] <= rb[0] && ra[1] <= rb[1] && ra[2] <= rb[2]
    requires InEllipsoid(ra, d0, d1, d2)
    ensures InEllipsoid(rb, d0, d1, d2)
  {
    InEllipsoidIffSum(ra, d0, d1, d2);
    Ratio2Shrinks(d0, ra[0], rb[0]);
    Ratio2Shrinks(d1, ra[1], rb[1]);
    Ratio2Shrinks(d2, ra[2], rb[2]);
    InEllipsoidIffSum(rb, d0, d1, d2);
  }

  function KernelShape(r: seq<int>): Shape
    requires ValidRadius(r)
  {
    Shape(2 * r[0] + 1, 2 * r[1] + 1, 2 * r[2] + 1)
  }

  /** create_ellipsoid_kernel: a boolean grid of shape (2r0+1, 2r1+1, 2r2+1)
      whose cell (a, b, c) stands for offset (a - r0, b - r1, c - r2), so that
      offset 0 sits at (r0, r1, r2) and is in the kernel. */
  function CreateEllipsoidKernel(r: seq<int>): (kernel: Grid<bool>)
    requires ValidRadius(r)
    ensures Shaped(kernel, KernelShape(r))
    ensures forall a, b, c | InShape(KernelShape(r), a, b, c) ::
      kernel[a][b][c] == InEllipsoid(r, a - r[0], b - r[1], c - r[2])
    ensures kernel[r[0]][r[1]][r[2]]
  {
    CentreAndTipsIn(r);
    seq(2 * r[0] + 1, a requires 0 <= a <= 2 * r[0] =>
      seq(2 * r[1] + 1, b requires 0 <= b <= 2 * r[1] =>
        seq(2 * r[2] + 1, c requires 0 <= c <= 2 * r[2] =>
          InEllipsoid(r, a - r[0], b - r[1], c - r[2]))))
  }

  /** The kernel grid is mirror-symmetric on each axis, so scipy's reflection
      of the structuring element does not change it. */
  lemma KernelSymmetric(r: seq<int>, a: int, b: int, c: int)
    requires ValidRadius(r) && InShape(KernelShape(r), a, b, c)
    ensures CreateEllipsoidKernel(r)[a][b][c] == CreateEllipsoidKernel(r)[2 * r[0] - a][b][c]
    ensures CreateEllipsoidKernel(r)[a][b][c] == CreateEllipsoidKernel(r)[a][2 * r[1] - b][c]
    ensures CreateEllipsoidKernel(r)[a][b][c] == CreateEllipsoidKernel(r)[a][b][2 * r[2] - c]
  {
    EllipsoidSymmetric(r, a - r[0], b - r[1], c - r[2]);
    assert 2 * r[0] - a - r[0] == -(a - r[0]);
    assert 2 * r[1] - b - r[1] == -(b - r[1]);
    assert 2 * r[2] - c - r[2] == -(c - r[2]);
  }

  /** Kernel cell (a, b, c), reflected through the kernel's centre and placed
      on voxel (i, j, l), covers a non-zero voxel of the input. */
  predicate CoversForeground(mask: Grid<int>, s: Shape, kernel: Grid<bool>, ks: Shape,
                             i: int, j: int, l: int, a: int, b: int, c: int)
    requires Shaped(mask, s) && Shaped(kernel, ks)
  {
    InShape(ks, a, b, c) && kernel[a][b][c] &&
    InShape(s, i - (a - ks.n0 / 2), j - (b - ks.n1 / 2), l - (c - ks.n2 / 2)) &&
    mask[i - (a - ks.n0 / 2)][j - (b - ks.n1 / 2)][l - (c - ks.n2 / 2)] != 0
  }

  /** Voxel (i, j, l) is reached by the structuring element, as in scipy's
      binary_dilation: positions outside the grid count as background. */
  predicate Reaches(mask: Grid<int>, s: Shape, kernel: Grid<bool>, ks: Shape, i: int, j: int, l: int)
    requires Shaped(mask, s) && Shaped(kernel, ks)
  {
    exists a, b, c | 0 <= a < ks.n0 && 0 <= b < ks.n1 && 0 <= c < ks.n2 ::
      CoversForeground(mask, s, kernel, ks, i, j, l, a, b, c)
  }

  /** binary_dilation(mask, structure=kernel).astype(uint8). */
  function BinaryDilation(mask: Grid<int>, s: Shape, kernel: Grid<bool>, ks: Shape): (out: Grid<int>)
    requires Shaped(mask, s) && Shaped(kernel, ks)
    ensures Shaped(out, s) && IsBinary(out, s)
    ensures forall i, j, l | InShape(s, i, j, l) ::
      out[i][j][l] == if Reaches(mask, s, kernel, ks, i, j, l) then 1 else 0
  {
    seq(s.n0, i requires 0 <= i < s.n0 =>
      seq(s.n1, j requires 0 <= j < s.n1 =>
        seq(s.n2, l requires 0 <= l < s.n2 =>
          if Reaches(mask, s, kernel, ks, i, j, l) then 1 else 0)))
  }

  /** A positive spacing on every axis, as voxel spacing always is. */
  predicate ValidSpacing(spacing: seq<real>) {
    |spacing| >= 3 && forall a | 0 <= a < |spacing| :: spacing[a] > 0.0
  }

  /** expand_mask: dilate with the ellipsoid kernel built from the voxel radius. */
  function ExpandMask(mask: Grid<int>, s: Shape, spacing: seq<real>, expandMm: real): (out: Grid<int>)
    requires Shaped(mask, s) && ValidSpacing(spacing) && expandMm > 0.0
    ensures Shaped(out, s) && IsBinary(out, s)
  {
    var radius := VoxelRadius(expandMm, spacing);
    BinaryDilation(mask, s, CreateEllipsoidKernel(radius), KernelShape(radius))
  }

  /** Offset (d0, d1, d2) is in the ellipsoid of radius `r` and leads from
      voxel (i, j, l) to a non-zero voxel inside the grid. */
  ghost predicate ReachesBy(mask: Grid<int>, s: Shape, r: seq<int>, i: int, j: int, l: int, d0: int, d1: int, d2: int)
    requires Shaped(mask, s) && |r| >= 3
  {
    -r[0] <= d0 <= r[0] && -r[1] <= d1 <= r[1] && -r[2] <= d2 <= r[2] &&
    InEllipsoid(r, d0, d1, d2) && InShape(s, i + d0, j + d1, l + d2) && mask[i + d0][j + d1][l + d2] != 0
  }

  /** Independent description of dilation by the ellipsoid of radius `r`:
      some foreground voxel lies within the ellipsoid around (i, j, l). */
  ghost predicate NearForeground(mask: Grid<int>, s: Shape, r: seq<int>, i: int, j: int, l: int)
    requires Shaped(mask, s) && |r| >= 3
  {
    exists d0, d1, d2 :: ReachesBy(mask, s, r, i, j, l, d0, d1, d2)
  }

  /** Negating the whole offset does not change membership. */
  lemma EllipsoidNegated(r: seq<int>, d0: int, d1: int, d2: int)
    requires |r| >= 3
    ensures InEllipsoid(r, -d0, -d1, -d2) == InEllipsoid(r, d0, d1, d2)
  {
    assert Sq(-d0) == Sq(d0) && Sq(-d1) == Sq(d1) && Sq(-d2) == Sq(d2);
  }

  lemma {:induction false} ReachesThenNear(mask: Grid<int>, s: Shape, r: seq<int>, i: int, j: int, l: int)
    requires Shaped(mask, s) && ValidRadius(r) && InShape(s, i, j, l)
    requires Reaches(mask, s, CreateEllipsoidKernel(r), KernelShape(r), i, j, l)
    ensures NearForeground(mask, s, r, i, j, l)
  {
    var ks := KernelShape(r);
    var kernel := CreateEllipsoidKernel(r);
    assert ks.n0 / 2 == r[0] && ks.n1 / 2 == r[1] && ks.n2 / 2 == r[2];
    var a, b, c :| 0 <= a < ks.n0 && 0 <= b < ks.n1 && 0 <= c < ks.n2 &&
      CoversForeground(mask, s, kernel, ks, i, j, l, a, b, c);
    var d0, d1, d2 := r[0] - a, r[1] - b, r[2] - c;
    assert kernel[a][b][c] && InShape(KernelShape(r), a, b, c);
    assert InEllipsoid(r, -d0, -d1, -d2);
    EllipsoidNegated(r, d0, d1, d2);
    assert i - (a - ks.n0 / 2) == i + d0 && j - (b - ks.n1 / 2) == j + d1 && l - (c - ks.n2 / 2) == l + d2;
    assert ReachesBy(mask, s, r, i, j, l, d0, d1, d2);
  }

  lemma {:induction false} NearThenReaches(mask: Grid<int>, s: Shape, r: seq<int>, i: int, j: int, l: int)
    requires Shaped(mask, s) && ValidRadius(r) && InShape(s, i, j, l)
    requires NearForeground(mask, s, r, i, j, l)
    ensures Reaches(mask, s, CreateEllipsoidKernel(r), KernelShape(r), i, j, l)
  {
    var ks := KernelShape(r);
    var kernel := CreateEllipsoidKernel(r);
    assert ks.n0 / 2 == r[0] && ks.n1 / 2 == r[1] && ks.n2 / 2 == r[2];
    var d0, d1, d2 :| ReachesBy(mask, s, r, i, j, l, d0, d1, d2);
    var a, b, c := r[0] - d0, r[1] - d1, r[2] - d2;
    EllipsoidNegated(r, d0, d1, d2);
    assert kernel[a][b][c];
    assert CoversForeground(mask, s, kernel, ks, i, j, l, a, b, c);
  }

  /** Dilating with the kernel grid is dilating by the ellipsoid of offsets. */
  lemma DilationIffNear(mask: Grid<int>, s: Shape, r: seq<int>, i: int, j: int, l: int)
    requires Shaped(mask, s) && ValidRadius(r) && InShape(s, i, j, l)
    ensures Reaches(mask, s, CreateEllipsoidKernel(r), KernelShape(r), i, j, l) <==>
      NearForeground(mask, s, r, i, j, l)
  {
    if Reaches(mask, s, CreateEllipsoidKernel(r), KernelShape(r), i, j, l) {
      ReachesThenNear(mask, s, r, i, j, l);
    }
    if NearForeground(mask, s, r, i, j, l) {
      NearThenReaches(mask, s, r, i, j, l);
    }
  }

  /** The expanded mask is exactly the set of voxels within the ellipsoid of
      the voxel radius around some foreground voxel. */
  lemma ExpandMaskIffNear(mask: Grid<int>, s: Shape, spacing: seq<real>, expandMm: real, i: int, j: int, l: int)
    requires Shaped(mask, s) && ValidSpacing(spacing) && expandMm > 0.0
    requires InShape(s, i, j, l)
    ensures ExpandMask(mask, s, spacing, expandMm)[i][j][l] == 1 <==>
      NearForeground(mask, s, VoxelRadius(expandMm, spacing), i, j, l)
  {
    DilationIffNear(mask, s, VoxelRadius(expandMm, spacing), i, j, l);
  }

  /** Every foreground voxel of the input stays foreground: the kernel's
      centre is in it once every radius is at least 1. */
  lemma ExpandMaskContainsMask(mask: Grid<int>, s: Shape, spacing: seq<real>, expandMm: real)
    requires Shaped(mask, s) && ValidSpacing(spacing) && expandMm > 0.0
    ensures Within(mask, ExpandMask(mask, s, spacing, expandMm), s)
  {
    var r := VoxelRadius(expandMm, spacing);
    CentreAndTipsIn(r);
    forall i, j, l | InShape(s, i, j, l) && mask[i][j][l] != 0
      ensures ExpandMask(mask, s, spacing, expandMm)[i][j][l] != 0
    {
      assert ReachesBy(mask, s, r, i, j, l, 0, 0, 0);
      ExpandMaskIffNear(mask, s, spacing, expandMm, i, j, l);
    }
  }

  lemma RadiusMonotone(e1: real, e2: real, sp: real)
    requires e1 <= e2 && sp > 0.0
    ensures AxisRadius(e1, sp) <= AxisRadius(e2, sp)
  {
    ScaleMonotone(e1, e2, 1.0 / sp);
    assert e1 / sp <= e2 / sp;
  }

  /** A larger expansion distance never removes a voxel. */
  lemma ExpandMaskMonotone(mask: Grid<int>, s: Shape, spacing: seq<real>, e1: real, e2: real)
    requires Shaped(mask, s) && ValidSpacing(spacing) && 0.0 < e1 <= e2
    ensures Within(ExpandMask(mask, s, spacing, e1), ExpandMask(mask, s, spacing, e2), s)
  {
    var r1, r2 := VoxelRadius(e1, spacing), VoxelRadius(e2, spacing);
    RadiusMonotone(e1, e2, spacing[0]);
    RadiusMonotone(e1, e2, spacing[1]);
    RadiusMonotone(e1, e2, spacing[2]);
    forall i, j, l | InShape(s, i, j, l) && ExpandMask(mask, s, spacing, e1)[i][j][l] != 0
      ensures ExpandMask(mask, s, spacing, e2)[i][j][l] != 0
    {
      ExpandMaskIffNear(mask, s, spacing, e1, i, j, l);
      var d0, d1, d2 :| ReachesBy(mask, s, r1, i, j, l, d0, d1, d2);
      EllipsoidNests(r1, r2, d0, d1, d2);
      assert ReachesBy(mask, s, r2, i, j, l, d0, d1, d2);
      ExpandMaskIffNear(mask, s, spacing, e2, i, j, l);
    }
  }

  /** Dilation is monotone in its input: a larger mask dilates to a larger one. */
  lemma DilationMonotone(m1: Grid<int>, m2: Grid<int>, s: Shape, kernel: Grid<bool>, ks: Shape)
    requires Shaped(m1, s) && Shaped(m2, s) && Shaped(kernel, ks)
    requires Within(m1, m2, s)
    ensures Within(BinaryDilation(m1, s, kernel, ks), BinaryDilation(m2, s, kernel, ks), s)
  {
    forall i, j, l | InShape(s, i, j, l) && Reaches(m1, s, kernel, ks, i, j, l)
      ensures Reaches(m2, s, kernel, ks, i, j, l)
    {
      var a, b, c :| 0 <= a < ks.n0 && 0 <= b < ks.n1 && 0 <= c < ks.n2 &&
        CoversForeground(m1, s, kernel, ks, i, j, l, a, b, c);
      assert CoversForeground(m2, s, kernel, ks, i, j, l, a, b, c);
    }
  }
}
