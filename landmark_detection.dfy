/** Landmark detection on a tibia mask (src/landmark_detection.py): find the
    slice the source calls the lowest (scanning z from the top index down),
    split its foreground at the mean x, and take the voxel of largest y on
    each side. */
module LandmarkDetection {
  import opened Grids

  /** One row of `np.column_stack(np.where(slice > 0))`: an (x, y) index. */
  datatype Coord = Coord(x: nat, y: nat)

  /** A landmark as the source returns it: (x, y, z). */
  datatype Point = Point(x: nat, y: nat, z: nat)

  datatype Landmarks = Landmarks(medial: Point, lateral: Point)

  /** The two ValueErrors the source raises. */
  datatype LandmarkError =
    | NoPixels      // "No tibia pixels found in any slice."
    | OneSideEmpty  // "Could not find both medial and lateral points."

  datatype Result<T, E> = Success(value: T) | Failure(error: E)

  datatype Side = Medial | Lateral

  /** Row-major order, the order in which `np.where` lists indices. */
  predicate Before(p: Coord, q: Coord) {
    p.x < q.x || (p.x == q.x && p.y < q.y)
  }

  ghost predicate RowMajor(cs: seq<Coord>) {
    forall a, b | 0 <= a < b < |cs| :: Before(cs[a], cs[b])
  }

  lemma {:induction false} RowMajorAppend(left: seq<Coord>, right: seq<Coord>)
    requires RowMajor(left) && RowMajor(right)
    requires forall p, q | p in left && q in right :: Before(p, q)
    ensures RowMajor(left + right)
  {
    var cs := left + right;
    forall a, b | 0 <= a < b < |cs| ensures Before(cs[a], cs[b]) {
      if b < |left| {
        assert cs[a] == left[a] && cs[b] == left[b];
      } else if a >= |left| {
        assert cs[a] == right[a - |left|] && cs[b] == right[b - |left|];
      } else {
        assert cs[a] in left && cs[b] in right;
      }
    }
  }

  /** Foreground indices (x, y) of slice z in row x with y < ny, in order. */
  function RowCoords(mask: Grid<int>, s: Shape, x: nat, z: nat, ny: nat): (cs: seq<Coord>)
    requires Shaped(mask, s) && x < s.n0 && z < s.n2 && ny <= s.n1
    ensures forall c :: c in cs <==> c.x == x && c.y < ny && mask[x][c.y][z] > 0
    ensures RowMajor(cs)
  {
    if ny == 0 then []
    else
      var prev := RowCoords(mask, s, x, z, ny - 1);
      if mask[x][ny - 1][z] > 0 then
        RowMajorAppend(prev, [Coord(x, ny - 1)]);
        prev + [Coord(x, ny - 1)]
      else prev
  }

  /** Foreground indices of slice z in rows x < nx, in row-major order. */
  function CoordsUpTo(mask: Grid<int>, s: Shape, z: nat, nx: nat): (cs: seq<Coord>)
    requires Shaped(mask, s) && z < s.n2 && nx <= s.n0
    ensures forall c :: c in cs <==> c.x < nx && c.y < s.n1 && mask[c.x][c.y][z] > 0
    ensures RowMajor(cs)
  {
    if nx == 0 then []
    else
      var prev := CoordsUpTo(mask, s, z, nx - 1);
      var row := RowCoords(mask, s, nx - 1, z, s.n1);
      RowMajorAppend(prev, row);
      prev + row
  }

  /** `np.column_stack(np.where(tibia_mask[:, :, z] > 0))`. */
  function SliceCoords(mask: Grid<int>, s: Shape, z: nat): (cs: seq<Coord>)
    requires Shaped(mask, s) && z < s.n2
    ensures forall c :: c in cs <==> c.x < s.n0 && c.y < s.n1 && mask[c.x][c.y][z] > 0
    ensures RowMajor(cs)
  {
    CoordsUpTo(mask, s, z, s.n0)
  }

  function SumX(cs: seq<Coord>): nat {
    if cs == [] then 0 else SumX(cs[..|cs| - 1]) + cs[|cs| - 1].x
  }

  /** `int(np.mean(coords[:, 0]))`: the coordinates are non-negative, so
      truncation is the floor. */
  function CenterX(cs: seq<Coord>): (cx: nat)
    requires cs != []
    ensures cx * |cs| <= SumX(cs) < cx * |cs| + |cs|
  {
    FloorDivision(SumX(cs), |cs|);
    SumX(cs) / |cs|
  }

  /** `a / n` is the floor of a over n. */
  lemma FloorDivision(a: nat, n: nat)
    requires n > 0
    ensures (a / n) * n <= a < (a / n) * n + n
  {
    assert a == (a / n) * n + a % n;
  }

  predicate OnSide(c: Coord, cx: int, side: Side) {
    match side
    case Medial => c.x < cx
    case Lateral => c.x >= cx
  }

  /** `coords[coords[:, 0] < center_x]` and `coords[coords[:, 0] >= center_x]`. */
  function FilterSide(cs: seq<Coord>, cx: int, side: Side): (r: seq<Coord>)
    ensures forall c :: c in r <==> c in cs && OnSide(c, cx, side)
  {
    if cs == [] then []
    else
      var rest := FilterSide(cs[..|cs| - 1], cx, side);
      if OnSide(cs[|cs| - 1], cx, side) then rest + [cs[|cs| - 1]] else rest
  }

  /** Filtering keeps row-major order. */
  lemma {:induction false} FilterSideOrdered(cs: seq<Coord>, cx: int, side: Side)
    requires RowMajor(cs)
    ensures RowMajor(FilterSide(cs, cx, side))
  {
    if cs != [] {
      var init := cs[..|cs| - 1];
      var last := cs[|cs| - 1];
      FilterSideOrdered(init, cx, side);
      if OnSide(last, cx, side) {
        forall p | p in FilterSide(init, cx, side) ensures Before(p, last) {
          var a :| 0 <= a < |init| && init[a] == p;
          assert cs[a] == p;
        }
        RowMajorAppend(FilterSide(init, cx, side), [last]);
      }
    }
  }

  /** The medial and lateral sides partition the slice's coordinates. */
  lemma {:induction false} SidesPartition(cs: seq<Coord>, cx: int)
    ensures multiset(FilterSide(cs, cx, Medial)) + multiset(FilterSide(cs, cx, Lateral)) == multiset(cs)
  {
    if cs != [] {
      SidesPartition(cs[..|cs| - 1], cx);
      assert cs == cs[..|cs| - 1] + [cs[|cs| - 1]];
    }
  }

  /** `np.argmax(pts[:, 1])`: the first index at which y is largest. */
  function ArgMaxY(pts: seq<Coord>): (m: nat)
    requires pts != []
    ensures m < |pts|
    ensures forall t | 0 <= t < |pts| :: pts[t].y <= pts[m].y
    ensures forall t | 0 <= t < m :: pts[t].y < pts[m].y
  {
    if |pts| == 1 then 0
    else
      var m := ArgMaxY(pts[..|pts| - 1]);
      if pts[|pts| - 1].y > pts[m].y then |pts| - 1 else m
  }

  /** Lines 25-39 for the coordinates of slice z. */
  function LandmarksFrom(coords: seq<Coord>, z: nat): (r: Result<Landmarks, LandmarkError>)
    ensures r == Failure(NoPixels) <==> coords == []
    ensures r.Success? ==>
      var m, l := r.value.medial, r.value.lateral;
      m.z == z && l.z == z && Coord(m.x, m.y) in coords && Coord(l.x, l.y) in coords &&
      m.x < CenterX(coords) <= l.x
  {
    if coords == [] then Failure(NoPixels)
    else
      var cx := CenterX(coords);
      var medial := FilterSide(coords, cx, Medial);
      var lateral := FilterSide(coords, cx, Lateral);
      if medial == [] || lateral == [] then Failure(OneSideEmpty)
      else
        var m := medial[ArgMaxY(medial)];
        var l := lateral[ArgMaxY(lateral)];
        Success(Landmarks(Point(m.x, m.y, z), Point(l.x, l.y, z)))
  }

  lemma {:induction false} SumXBound(cs: seq<Coord>, bound: nat)
    requires forall c | c in cs :: c.x <= bound
    ensures SumX(cs) <= |cs| * bound
  {
    if cs != [] {
      var init := cs[..|cs| - 1];
      assert forall c | c in init :: c in cs;
      SumXBound(init, bound);
      assert cs[|cs| - 1] in cs;
      MulSucc(|init|, bound);
    }
  }

  lemma MulSucc(n: nat, b: nat)
    ensures (n + 1) * b == n * b + b
  {
  }

  /** The coordinate of largest x (the first one, in list order). */
  function RightmostCoord(cs: seq<Coord>): (c: Coord)
    requires cs != []
    ensures c in cs && forall d | d in cs :: d.x <= c.x
  {
    if |cs| == 1 then cs[0]
    else
      var c := RightmostCoord(cs[..|cs| - 1]);
      assert forall d | d in cs :: d in cs[..|cs| - 1] || d == cs[|cs| - 1];
      if cs[|cs| - 1].x > c.x then cs[|cs| - 1] else c
  }

  lemma DivBound(a: nat, n: nat, b: nat)
    requires n > 0 && a <= n * b
    ensures a / n <= b
  {
    assert (a / n) * n <= n * b;
    MulCancel(a / n, b, n);
  }

  lemma MulCancel(x: int, y: int, n: int)
    requires n > 0 && x * n <= y * n
    ensures x <= y
  {
  }

  /** The rightmost coordinate lies at or right of the mean, so the lateral
      side of a non-empty slice is never empty. */
  lemma LateralNonEmpty(cs: seq<Coord>)
    requires cs != []
    ensures FilterSide(cs, CenterX(cs), Lateral) != []
  {
    var c := RightmostCoord(cs);
    SumXBound(cs, c.x);
    DivBound(SumX(cs), |cs|, c.x);
    assert c in FilterSide(cs, CenterX(cs), Lateral);
  }

  /** Point p is a voxel of the given side with the largest y on that side,
      and the one of smallest x among those of that largest y. */
  ghost predicate IsExtremePoint(cs: seq<Coord>, cx: int, side: Side, p: Point, z: nat) {
    p.z == z && Coord(p.x, p.y) in cs && OnSide(Coord(p.x, p.y), cx, side) &&
    forall c | c in cs && OnSide(c, cx, side) :: c.y <= p.y && (c.y == p.y ==> p.x <= c.x)
  }

  lemma {:induction false} ArgMaxYSmallestX(pts: seq<Coord>)
    requires pts != [] && RowMajor(pts)
    ensures forall c | c in pts && c.y == pts[ArgMaxY(pts)].y :: pts[ArgMaxY(pts)].x <= c.x
  {
    var m := ArgMaxY(pts);
    forall c | c in pts && c.y == pts[m].y ensures pts[m].x <= c.x {
      var t :| 0 <= t < |pts| && pts[t] == c;
      if t > m {
        assert Before(pts[m], pts[t]);
      }
    }
  }

  /** What lines 22-39 promise for the coordinates of one slice: the error
      cases exactly, and otherwise the extreme voxel on each side. */
  lemma {:induction false} LandmarksFromCorrect(coords: seq<Coord>, z: nat)
    requires RowMajor(coords)
    ensures LandmarksFrom(coords, z) == Failure(NoPixels) <==> coords == []
    ensures coords != [] ==>
      (LandmarksFrom(coords, z) == Failure(OneSideEmpty) <==> forall c | c in coords :: c.x >= CenterX(coords))
    ensures LandmarksFrom(coords, z).Success? ==>
      var found := LandmarksFrom(coords, z).value;
      IsExtremePoint(coords, CenterX(coords), Medial, found.medial, z) &&
      IsExtremePoint(coords, CenterX(coords), Lateral, found.lateral, z) &&
      found.medial.x < CenterX(coords) <= found.lateral.x
  {
    if coords != [] {
      var cx := CenterX(coords);
      var medial := FilterSide(coords, cx, Medial);
      var lateral := FilterSide(coords, cx, Lateral);
      LateralNonEmpty(coords);
      if medial == [] {
        forall c | c in coords ensures c.x >= cx {
          assert c !in medial;
        }
      } else {
        assert medial[0] in coords;
      }
      if medial != [] && lateral != [] {
        FilterSideOrdered(coords, cx, Medial);
        FilterSideOrdered(coords, cx, Lateral);
        ArgMaxYSmallestX(medial);
        ArgMaxYSmallestX(lateral);
        var m := medial[ArgMaxY(medial)];
        var l := lateral[ArgMaxY(lateral)];
        assert m in medial && l in lateral;
        forall c | c in coords && OnSide(c, cx, Medial) ensures c.y <= m.y {
          assert c in medial;
          var t :| 0 <= t < |medial| && medial[t] == c;
        }
        forall c | c in coords && OnSide(c, cx, Lateral) ensures c.y <= l.y {
          assert c in lateral;
          var t :| 0 <= t < |lateral| && lateral[t] == c;
        }
      }
    }
  }

  /** The slice the source calls the lowest: the largest z index whose slice
      holds a voxel > 0; every slice of larger index is empty. */
  ghost predicate IsLowestSlice(mask: Grid<int>, s: Shape, z: nat)
    requires Shaped(mask, s)
  {
    z < s.n2 && SliceCoords(mask, s, z) != [] &&
    forall z' | z < z' < s.n2 :: SliceCoords(mask, s, z') == []
  }

  /** At most one slice is the lowest. */
  lemma LowestSliceUnique(mask: Grid<int>, s: Shape, z1: nat, z2: nat)
    requires Shaped(mask, s) && IsLowestSlice(mask, s, z1) && IsLowestSlice(mask, s, z2)
    ensures z1 == z2
  {
  }

  /** detect_lowest_medial_lateral_points: the downward scan with `break`,
      then lines 22-39 on the slice where it stopped. */
  method DetectLowestMedialLateralPoints(mask: Grid<int>, s: Shape) returns (r: Result<Landmarks, LandmarkError>)
    requires Shaped(mask, s) && s.n2 >= 1
    ensures r == Failure(NoPixels) <==> forall z: nat | z < s.n2 :: SliceCoords(mask, s, z) == []
    ensures r != Failure(NoPixels) ==>
      exists z: nat :: IsLowestSlice(mask, s, z) && r == LandmarksFrom(SliceCoords(mask, s, z), z)
  {
    var z: nat := s.n2;
    var coords: seq<Coord> := [];
    while z > 0
      invariant z <= s.n2
      invariant forall z': nat | z <= z' < s.n2 :: SliceCoords(mask, s, z') == []
      invariant z < s.n2 ==> coords == SliceCoords(mask, s, z)
    {
      z := z - 1;
      coords := SliceCoords(mask, s, z);
      if |coords| > 0 {
        break;
      }
    }
    r := LandmarksFrom(coords, z);
    if coords == [] {
      assert r == Failure(NoPixels);
    } else {
      assert IsLowestSlice(mask, s, z);
      assert r != Failure(NoPixels);
    }
  }
}
