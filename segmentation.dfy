/** Bone segmentation (src/segmentation.py): intensity thresholding, then
    filtering of connected components by size. The labelling that
    `ndimage.label` computes and the ordering that `np.argsort` computes are
    parameters; the label sizes (`ndimage.sum`) are computed here. */
module Segmentation {
  import opened Grids

  /** apply_threshold: 1 exactly where lower < v < upper (both bounds strict). */
  function ApplyThreshold(volume: Grid<real>, s: Shape, lower: real, upper: real): (mask: Grid<int>)
    requires Shaped(volume, s)
    ensures Shaped(mask, s) && IsBinary(mask, s)
    ensures forall i, j, k | InShape(s, i, j, k) ::
      mask[i][j][k] == 1 <==> lower < volume[i][j][k] && volume[i][j][k] < upper
  {
    seq(s.n0, i requires 0 <= i < s.n0 =>
      seq(s.n1, j requires 0 <= j < s.n1 =>
        seq(s.n2, k requires 0 <= k < s.n2 =>
          if lower < volume[i][j][k] && volume[i][j][k] < upper then 1 else 0)))
  }

  /** A voxel at either bound is background. */
  lemma ThresholdBoundsExcluded(volume: Grid<real>, s: Shape, lower: real, upper: real, i: int, j: int, k: int)
    requires Shaped(volume, s) && InShape(s, i, j, k)
    requires volume[i][j][k] == lower || volume[i][j][k] == upper
    ensures ApplyThreshold(volume, s, lower, upper)[i][j][k] == 0
  {
  }

  /** Widening the intensity window never removes a voxel. */
  lemma ThresholdWidening(volume: Grid<real>, s: Shape, l1: real, u1: real, l2: real, u2: real)
    requires Shaped(volume, s) && l2 <= l1 && u1 <= u2
    ensures Within(ApplyThreshold(volume, s, l1, u1), ApplyThreshold(volume, s, l2, u2), s)
  {
  }

  function RowTotal(r: seq<int>): (t: int)
    ensures (forall a | 0 <= a < |r| :: r[a] == 0) ==> t == 0
    ensures (forall a | 0 <= a < |r| :: r[a] >= 0) ==> t >= 0 && forall a | 0 <= a < |r| :: t >= r[a]
  {
    if r == [] then 0 else r[0] + RowTotal(r[1..])
  }

  function PlaneTotal(p: seq<seq<int>>): (t: int)
    ensures (forall a, b | 0 <= a < |p| && 0 <= b < |p[a]| :: p[a][b] == 0) ==> t == 0
    ensures (forall a, b | 0 <= a < |p| && 0 <= b < |p[a]| :: p[a][b] >= 0) ==>
      t >= 0 && forall a, b | 0 <= a < |p| && 0 <= b < |p[a]| :: t >= p[a][b]
  {
    if p == [] then 0
    else
      assert forall a, b | 1 <= a < |p| && 0 <= b < |p[a]| :: p[1..][a - 1][b] == p[a][b];
      RowTotal(p[0]) + PlaneTotal(p[1..])
  }

  /** The sum of every voxel of a grid. */
  function GridTotal(g: Grid<int>): (t: int)
    ensures (forall a, b, c | 0 <= a < |g| && 0 <= b < |g[a]| && 0 <= c < |g[a][b]| :: g[a][b][c] == 0) ==> t == 0
    ensures (forall a, b, c | 0 <= a < |g| && 0 <= b < |g[a]| && 0 <= c < |g[a][b]| :: g[a][b][c] >= 0) ==>
      t >= 0 && forall a, b, c | 0 <= a < |g| && 0 <= b < |g[a]| && 0 <= c < |g[a][b]| :: t >= g[a][b][c]
  {
    if g == [] then 0
    else
      assert forall a, b, c | 1 <= a < |g| && 0 <= b < |g[a]| && 0 <= c < |g[a][b]| :: g[1..][a - 1][b][c] == g[a][b][c];
      PlaneTotal(g[0]) + GridTotal(g[1..])
  }

  /** The mask's values where the label is `id`, 0 elsewhere. */
  function LabelWeights(mask: Grid<int>, labeled: Grid<int>, s: Shape, id: int): (w: Grid<int>)
    requires Shaped(mask, s) && Shaped(labeled, s)
    ensures Shaped(w, s)
    ensures forall i, j, k | InShape(s, i, j, k) ::
      w[i][j][k] == if labeled[i][j][k] == id then mask[i][j][k] else 0
  {
    seq(s.n0, i requires 0 <= i < s.n0 =>
      seq(s.n1, j requires 0 <= j < s.n1 =>
        seq(s.n2, k requires 0 <= k < s.n2 =>
          if labeled[i][j][k] == id then mask[i][j][k] else 0)))
  }

  /** `ndimage.sum(mask, labeled, [id])`: the sum of the mask over the voxels
      carrying the label `id`. */
  function LabelSize(mask: Grid<int>, labeled: Grid<int>, s: Shape, id: int): (size: int)
    requires Shaped(mask, s) && Shaped(labeled, s)
    ensures OnlyZeroVoxels(mask, labeled, s, id) ==> size == 0
  {
    var w := LabelWeights(mask, labeled, s, id);
    assert OnlyZeroVoxels(mask, labeled, s, id) ==>
      forall a, b, c | 0 <= a < |w| && 0 <= b < |w[a]| && 0 <= c < |w[a][b]| :: w[a][b][c] == 0
    by {
      forall a, b, c | 0 <= a < |w| && 0 <= b < |w[a]| && 0 <= c < |w[a][b]| ensures InShape(s, a, b, c) {
      }
    }
    GridTotal(w)
  }

  /** Every voxel carrying the label `id` is zero in the mask (vacuously so
      when no voxel carries it). */
  ghost predicate OnlyZeroVoxels(mask: Grid<int>, labeled: Grid<int>, s: Shape, id: int)
    requires Shaped(mask, s) && Shaped(labeled, s)
  {
    forall i, j, k | InShape(s, i, j, k) && labeled[i][j][k] == id :: mask[i][j][k] == 0
  }

  /** `ndimage.sum(mask, labeled, range(numFeatures + 1))`: every label's size. */
  function LabelSizes(mask: Grid<int>, labeled: Grid<int>, s: Shape, numFeatures: nat): (sizes: seq<int>)
    requires Shaped(mask, s) && Shaped(labeled, s)
    ensures |sizes| == numFeatures + 1
    ensures forall id | 0 <= id <= numFeatures :: sizes[id] == LabelSize(mask, labeled, s, id)
  {
    seq(numFeatures + 1, id => LabelSize(mask, labeled, s, id))
  }

  /** Every voxel carries a label in 0..numFeatures and label 0 marks
      exactly the mask's zero voxels. */
  ghost predicate LabelsInRange(mask: Grid<int>, labeled: Grid<int>, s: Shape, numFeatures: nat) {
    Shaped(mask, s) && Shaped(labeled, s) &&
    forall i, j, k | InShape(s, i, j, k) ::
      0 <= labeled[i][j][k] <= numFeatures && (labeled[i][j][k] == 0 <==> mask[i][j][k] == 0)
  }

  /** Some voxel carries the label `id`. */
  ghost predicate Present(labeled: Grid<int>, s: Shape, id: int)
    requires Shaped(labeled, s)
  {
    exists i, j, k | InShape(s, i, j, k) :: labeled[i][j][k] == id
  }

  /** What `ndimage.label(mask)` returns: labels in range, and every label
      1..numFeatures marks at least one voxel. */
  ghost predicate IsLabelling(mask: Grid<int>, labeled: Grid<int>, s: Shape, numFeatures: nat) {
    LabelsInRange(mask, labeled, s, numFeatures) &&
    forall id | 1 <= id <= numFeatures :: Present(labeled, s, id)
  }

  /** On an unsigned 8-bit mask a label's size is non-negative and at least
      the value of each voxel it carries. */
  lemma {:induction false} LabelSizeCountsVoxels(mask: Grid<int>, labeled: Grid<int>, s: Shape, id: int)
    requires Shaped(mask, s) && Shaped(labeled, s) && IsByteGrid(mask, s)
    ensures LabelSize(mask, labeled, s, id) >= 0
    ensures forall i, j, k | InShape(s, i, j, k) && labeled[i][j][k] == id ::
      LabelSize(mask, labeled, s, id) >= mask[i][j][k]
  {
    var w := LabelWeights(mask, labeled, s, id);
    forall a, b, c | 0 <= a < |w| && 0 <= b < |w[a]| && 0 <= c < |w[a][b]| ensures w[a][b][c] >= 0 {
      assert InShape(s, a, b, c);
    }
  }

  /** The background label has size 0. */
  lemma {:induction false} BackgroundSizeZero(mask: Grid<int>, labeled: Grid<int>, s: Shape, numFeatures: nat)
    requires LabelsInRange(mask, labeled, s, numFeatures)
    ensures LabelSize(mask, labeled, s, 0) == 0
  {
    assert OnlyZeroVoxels(mask, labeled, s, 0);
  }

  /** On an unsigned 8-bit mask, label 0 has size 0 and every foreground
      label has size at least 1. */
  lemma {:induction false} LabelSizesBounds(mask: Grid<int>, labeled: Grid<int>, s: Shape, numFeatures: nat)
    requires IsLabelling(mask, labeled, s, numFeatures) && IsByteGrid(mask, s)
    ensures var sizes := LabelSizes(mask, labeled, s, numFeatures);
      sizes[0] == 0 && forall id | 1 <= id <= numFeatures :: sizes[id] >= 1
  {
    BackgroundSizeZero(mask, labeled, s, numFeatures);
    forall id | 1 <= id <= numFeatures ensures LabelSize(mask, labeled, s, id) >= 1 {
      assert Present(labeled, s, id);
      var i, j, k :| InShape(s, i, j, k) && labeled[i][j][k] == id;
      LabelSizeCountsVoxels(mask, labeled, s, id);
    }
  }

  /** The labels of an unsigned 8-bit mask all have non-negative size. */
  lemma {:induction false} LabelSizesNonNegative(mask: Grid<int>, labeled: Grid<int>, s: Shape, numFeatures: nat)
    requires Shaped(mask, s) && Shaped(labeled, s) && IsByteGrid(mask, s)
    ensures forall id | 0 <= id <= numFeatures :: LabelSizes(mask, labeled, s, numFeatures)[id] >= 0
  {
    forall id | 0 <= id <= numFeatures ensures LabelSize(mask, labeled, s, id) >= 0 {
      LabelSizeCountsVoxels(mask, labeled, s, id);
    }
  }

  /** A zero grid of the labelling's shape with 1 written on every voxel
      whose label is kept. */
  function KeepLabels(labeled: Grid<int>, s: Shape, keep: set<int>): (out: Grid<int>)
    requires Shaped(labeled, s)
    ensures Shaped(out, s) && IsBinary(out, s)
    ensures forall i, j, k | InShape(s, i, j, k) :: out[i][j][k] == 1 <==> labeled[i][j][k] in keep
  {
    seq(s.n0, i requires 0 <= i < s.n0 =>
      seq(s.n1, j requires 0 <= j < s.n1 =>
        seq(s.n2, k requires 0 <= k < s.n2 =>
          if labeled[i][j][k] in keep then 1 else 0)))
  }

  /** Keeping is all or nothing per label: voxels of one label agree. */
  lemma KeepLabelsWholeRegions(labeled: Grid<int>, s: Shape, keep: set<int>, i: int, j: int, k: int, i': int, j': int, k': int)
    requires Shaped(labeled, s) && InShape(s, i, j, k) && InShape(s, i', j', k')
    requires labeled[i][j][k] == labeled[i'][j'][k']
    ensures KeepLabels(labeled, s, keep)[i][j][k] == KeepLabels(labeled, s, keep)[i'][j'][k']
  {
  }

  /** The labels whose size reaches `minSize`. */
  function LabelsAtLeast(sizes: seq<int>, minSize: int): (keep: set<int>)
    ensures forall id :: id in keep <==> 0 <= id < |sizes| && sizes[id] >= minSize
  {
    set id | 0 <= id < |sizes| && sizes[id] >= minSize
  }

  /** `out[labeled == id] = 1`: every voxel of label `id` becomes 1, every
      other voxel keeps its value. */
  method MarkLabel(out: array3<int>, labeled: Grid<int>, s: Shape, id: int)
    requires Shaped(labeled, s)
    requires out.Length0 == s.n0 && out.Length1 == s.n1 && out.Length2 == s.n2
    modifies out
    ensures forall i, j, k | InShape(s, i, j, k) ::
      out[i, j, k] == if labeled[i][j][k] == id then 1 else old(out[i, j, k])
  {
    forall i, j, k | 0 <= i < s.n0 && 0 <= j < s.n1 && 0 <= k < s.n2 && labeled[i][j][k] == id {
      out[i, j, k] := 1;
    }
  }

  /** clean_mask: a zero grid, and for each label in turn, if its size
      reaches `minSize`, every voxel of that label set to 1. */
  method CleanMask(mask: Grid<int>, s: Shape, labeled: Grid<int>, numFeatures: nat, minSize: int)
    returns (clean: array3<int>)
    requires LabelsInRange(mask, labeled, s, numFeatures)
    ensures fresh(clean)
    ensures ArrayHolds(clean, KeepLabels(labeled, s, LabelsAtLeast(LabelSizes(mask, labeled, s, numFeatures), minSize)), s)
  {
    var sizes := LabelSizes(mask, labeled, s, numFeatures);
    clean := new int[s.n0, s.n1, s.n2]((i, j, k) => 0);
    for id := 0 to |sizes|
      invariant clean.Length0 == s.n0 && clean.Length1 == s.n1 && clean.Length2 == s.n2
      invariant forall i, j, k | InShape(s, i, j, k) ::
        clean[i, j, k] == if labeled[i][j][k] < id && sizes[labeled[i][j][k]] >= minSize then 1 else 0
    {
      if sizes[id] >= minSize {
        MarkLabel(clean, labeled, s, id);
      }
    }
  }

  /** With a positive minimum size the background label is dropped, so the
      cleaned mask lies inside the mask. */
  lemma CleanMaskWithinMask(mask: Grid<int>, s: Shape, labeled: Grid<int>, numFeatures: nat, minSize: int)
    requires LabelsInRange(mask, labeled, s, numFeatures) && minSize > 0
    ensures var keep := LabelsAtLeast(LabelSizes(mask, labeled, s, numFeatures), minSize);
      0 !in keep && Within(KeepLabels(labeled, s, keep), mask, s)
  {
    BackgroundSizeZero(mask, labeled, s, numFeatures);
  }

  /** With a minimum size of 0 or less every label is kept, the background
      included, and the cleaned mask is 1 everywhere. */
  lemma CleanMaskKeepsAll(mask: Grid<int>, s: Shape, labeled: Grid<int>, numFeatures: nat, minSize: int)
    requires LabelsInRange(mask, labeled, s, numFeatures) && IsByteGrid(mask, s) && minSize <= 0
    ensures var keep := LabelsAtLeast(LabelSizes(mask, labeled, s, numFeatures), minSize);
      0 in keep && forall i, j, k | InShape(s, i, j, k) :: KeepLabels(labeled, s, keep)[i][j][k] == 1
  {
    LabelSizesNonNegative(mask, labeled, s, numFeatures);
  }

  /** `a[start:]` with Python's rules for a start index that is negative or
      beyond the end: always a suffix of `a`; a start of 0 or more drops that
      many leading elements (all of them when it exceeds the length), and a
      negative start keeps that many trailing elements (all of them when it
      exceeds the length). */
  function SliceFrom<T>(a: seq<T>, start: int): (r: seq<T>)
    ensures |r| <= |a| && r == a[|a| - |r|..]
    ensures start >= 0 ==> |r| == (if start <= |a| then |a| - start else 0)
    ensures start < 0 ==> |r| == (if -start <= |a| then -start else |a|)
  {
    if start >= 0 then a[if start <= |a| then start else |a|..]
    else a[if |a| + start >= 0 then |a| + start else 0..]
  }

  /** `np.argsort(sizes)[-numComponents:]`, given the ordering `order`: the
      last `numComponents` entries when that is positive, every entry for 0,
      and all but the first `-numComponents` entries when it is negative. */
  function TopIndices(order: seq<int>, numComponents: int): (top: seq<int>)
    ensures |top| <= |order| && top == order[|order| - |top|..]
    ensures numComponents >= 1 ==> |top| == (if numComponents <= |order| then numComponents else |order|)
    ensures numComponents == 0 ==> top == order
    ensures numComponents < 0 ==> |top| == (if |order| + numComponents >= 0 then |order| + numComponents else 0)
  {
    SliceFrom(order, -numComponents)
  }

  /** `order` is what `np.argsort(sizes)` can return: a permutation of the
      labels that lists their sizes in non-decreasing order (ties in any order). */
  ghost predicate IsArgsort(sizes: seq<int>, order: seq<int>) {
    |order| == |sizes| &&
    (forall t | 0 <= t < |order| :: 0 <= order[t] < |sizes|) &&
    (forall t, u | 0 <= t < u < |order| :: order[t] != order[u]) &&
    (forall id | 0 <= id < |sizes| :: id in order) &&
    (forall t, u | 0 <= t < u < |order| :: 0 <= order[t] < |sizes| && 0 <= order[u] < |sizes| &&
      sizes[order[t]] <= sizes[order[u]])
  }

  function Elements(q: seq<int>): (e: set<int>)
    ensures forall x :: x in e <==> x in q
  {
    set x | x in q
  }

  /** extract_largest_components: the selected indices `order[-n:]`, then a
      zero grid with every voxel of a selected label set to 1. */
  method ExtractLargestComponents(mask: Grid<int>, s: Shape, labeled: Grid<int>, numFeatures: nat,
                                  numComponents: int, order: seq<int>)
    returns (out: array3<int>)
    requires IsLabelling(mask, labeled, s, numFeatures)
    requires IsArgsort(LabelSizes(mask, labeled, s, numFeatures), order)
    ensures fresh(out)
    ensures ArrayHolds(out, KeepLabels(labeled, s, Elements(TopIndices(order, numComponents))), s)
  {
    var top := TopIndices(order, numComponents);
    out := MarkSelected(labeled, s, top);
  }

  /** The loop `for i in top_indices: out[labeled == i] = 1` over a fresh
      zero array. */
  method MarkSelected(labeled: Grid<int>, s: Shape, top: seq<int>) returns (out: array3<int>)
    requires Shaped(labeled, s)
    ensures fresh(out)
    ensures ArrayHolds(out, KeepLabels(labeled, s, Elements(top)), s)
  {
    out := new int[s.n0, s.n1, s.n2]((i, j, k) => 0);
    for t := 0 to |top|
      invariant out.Length0 == s.n0 && out.Length1 == s.n1 && out.Length2 == s.n2
      invariant forall i, j, k | InShape(s, i, j, k) :: out[i, j, k] == if labeled[i][j][k] in top[..t] then 1 else 0
    {
      assert top[..t + 1] == top[..t] + [top[t]];
      MarkLabel(out, labeled, s, top[t]);
    }
    assert top[..|top|] == top;
  }

  /** Every selected label is at least as large as every label left out. */
  lemma {:induction false} SelectedAreLargest(sizes: seq<int>, order: seq<int>, numComponents: int, kept: int, dropped: int)
    requires IsArgsort(sizes, order)
    requires kept in TopIndices(order, numComponents)
    requires 0 <= dropped < |sizes| && dropped !in TopIndices(order, numComponents)
    ensures 0 <= kept < |sizes| && sizes[kept] >= sizes[dropped]
  {
    var top := TopIndices(order, numComponents);
    var start := |order| - |top|;
    assert top == order[start..];
    var p :| 0 <= p < |top| && top[p] == kept;
    assert dropped in order;
    var q :| 0 <= q < |order| && order[q] == dropped;
    forall u | start <= u < |order| ensures order[u] != dropped {
      assert order[u] == top[u - start];
    }
    assert order[start + p] == kept;
  }

  lemma {:induction false} DistinctCardinality(q: seq<int>)
    requires forall t, u | 0 <= t < u < |q| :: q[t] != q[u]
    ensures |Elements(q)| == |q|
  {
    if q != [] {
      var init := q[..|q| - 1];
      DistinctCardinality(init);
      assert Elements(q) == Elements(init) + {q[|q| - 1]};
      assert q[|q| - 1] !in Elements(init);
    }
  }

  /** With numComponents >= 1 at most numComponents labels are selected
      (exactly that many when there are enough labels); with 0 every label is. */
  lemma SelectedCount(sizes: seq<int>, order: seq<int>, numComponents: int)
    requires IsArgsort(sizes, order)
    ensures numComponents >= 1 ==>
      |Elements(TopIndices(order, numComponents))| == if numComponents <= |sizes| then numComponents else |sizes|
    ensures numComponents == 0 ==> forall id | 0 <= id < |sizes| :: id in TopIndices(order, numComponents)
  {
    var top := TopIndices(order, numComponents);
    assert top == order[|order| - |top|..];
    DistinctCardinality(top);
  }

  /** With fewer features than components requested, every label is selected,
      the background label 0 included, and the output is 1 everywhere. */
  lemma FewFeaturesSelectsAll(mask: Grid<int>, s: Shape, labeled: Grid<int>, numFeatures: nat,
                              numComponents: int, order: seq<int>)
    requires IsLabelling(mask, labeled, s, numFeatures)
    requires IsArgsort(LabelSizes(mask, labeled, s, numFeatures), order)
    requires numFeatures < numComponents
    ensures 0 in TopIndices(order, numComponents)
    ensures forall i, j, k | InShape(s, i, j, k) ::
      KeepLabels(labeled, s, Elements(TopIndices(order, numComponents)))[i][j][k] == 1
  {
  }

  /** When label 0 is the only label of size 0 and the others have size at
      least 1, the ordering lists label 0 first. */
  lemma {:induction false} BackgroundFirst(sizes: seq<int>, order: seq<int>)
    requires IsArgsort(sizes, order) && |sizes| >= 1
    requires sizes[0] == 0 && forall id | 1 <= id < |sizes| :: sizes[id] >= 1
    ensures order[0] == 0
  {
    assert 0 in order;
    var q :| 0 <= q < |order| && order[q] == 0;
    assert sizes[order[0]] <= sizes[order[q]];
  }

  /** Under the same sizes, taking at most all but one label leaves label 0 out. */
  lemma {:induction false} BackgroundNotSelected(sizes: seq<int>, order: seq<int>, numComponents: int)
    requires IsArgsort(sizes, order) && 1 <= numComponents < |sizes|
    requires sizes[0] == 0 && forall id | 1 <= id < |sizes| :: sizes[id] >= 1
    ensures 0 !in TopIndices(order, numComponents)
  {
    BackgroundFirst(sizes, order);
    var top := TopIndices(order, numComponents);
    var start := |order| - |top|;
    assert start >= 1;
    forall p | 0 <= p < |top| ensures top[p] != 0 {
      assert top[p] == order[start + p];
    }
  }

  /** With 1 <= numComponents <= numFeatures the background is not selected
      (it is the only label of size 0), so the output lies inside the mask. */
  lemma {:induction false} EnoughFeaturesDropsBackground(mask: Grid<int>, s: Shape, labeled: Grid<int>, numFeatures: nat,
                                       numComponents: int, order: seq<int>)
    requires IsLabelling(mask, labeled, s, numFeatures) && IsByteGrid(mask, s)
    requires IsArgsort(LabelSizes(mask, labeled, s, numFeatures), order)
    requires 1 <= numComponents <= numFeatures
    ensures 0 !in TopIndices(order, numComponents)
    ensures Within(KeepLabels(labeled, s, Elements(TopIndices(order, numComponents))), mask, s)
  {
    var sizes := LabelSizes(mask, labeled, s, numFeatures);
    LabelSizesBounds(mask, labeled, s, numFeatures);
    BackgroundNotSelected(sizes, order, numComponents);
  }
}
