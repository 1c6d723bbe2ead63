/**
 * The pixel-order tables of the cluster-based ASICs (ePixUHR at 100 kHz,
 * ePixUHR, ePixUHR in MHz mode, SparkPix-RT), built by one parameterised
 * index algebra, and the proof that every one of them is a permutation.
 *
 * A lane map is assembled in four steps:
 *   1. a cluster map over the 2*h*w super-pixels of a cluster;
 *   2. `Split`: the first half becomes the left h x w block, the second half
 *      the right h x w block (optionally with its columns reversed), and the
 *      h x 2w result is read back row by row;
 *   3. `Columns`: for each of N clusters, N * cluster_map + cluster;
 *   4. `Lanes`: every entry doubled, even copy on the left and odd copy on
 *      the right of rows 4w wide, optionally with every row reversed.
 * Each step is stated directly on the flat (row-major) sequence.
 */
module LaneMaps {
  import opened Common

  /** `s` lists 0 .. |s|-1, each exactly once. */
  ghost predicate IsPermutation(s: seq<int>)
  {
    (forall k :: 0 <= k < |s| ==> 0 <= s[k] < |s|) &&
    (forall i, j :: 0 <= i < |s| && 0 <= j < |s| && i != j ==> s[i] != s[j])
  }

  function Image(s: seq<int>, n: nat): (img: set<int>)
    requires n <= |s|
    ensures forall x :: x in img <==> exists k :: 0 <= k < n && s[k] == x
  {
    set k | 0 <= k < n :: s[k]
  }

  lemma {:induction false} ImageSize(s: seq<int>, n: nat)
    requires n <= |s|
    requires forall i, j :: 0 <= i < |s| && 0 <= j < |s| && i != j ==> s[i] != s[j]
    ensures |Image(s, n)| == n
  {
    if n > 0 {
      ImageSize(s, n - 1);
      assert Image(s, n) == Image(s, n - 1) + {s[n - 1]};
      assert s[n - 1] !in Image(s, n - 1);
    }
  }

  /** A permutation hits every value of its range (pigeonhole). */
  lemma PermutationCovers(s: seq<int>, v: int)
    requires IsPermutation(s)
    requires 0 <= v < |s|
    ensures exists k :: 0 <= k < |s| && s[k] == v
  {
    ImageSize(s, |s|);
    ImageSize(Identity(|s|), |s|);
    var img, all := Image(s, |s|), Image(Identity(|s|), |s|);
    forall x | x in img
      ensures x in all
    {
      assert Identity(|s|)[x] == x;
    }
    assert |all - img| == 0;
    assert Identity(|s|)[v] == v;
    assert v in all;
  }

  /** `src` read in the order `idx` gives. */
  function Gather(src: seq<int>, idx: seq<int>): (g: seq<int>)
    requires forall k :: 0 <= k < |idx| ==> 0 <= idx[k] < |src|
    ensures |g| == |idx|
    ensures forall k :: 0 <= k < |idx| ==> g[k] == src[idx[k]]
  {
    seq(|idx|, k requires 0 <= k < |idx| => src[idx[k]])
  }

  /** Reordering a permutation by a permutation of its positions leaves a permutation. */
  lemma GatherPermutation(src: seq<int>, idx: seq<int>)
    requires IsPermutation(src) && IsPermutation(idx) && |src| == |idx|
    ensures IsPermutation(Gather(src, idx))
  {
  }

  function Identity(n: nat): (s: seq<int>)
    ensures |s| == n && forall k :: 0 <= k < n ==> s[k] == k
    ensures IsPermutation(s)
  {
    seq(n, k => k)
  }

  // ---------------------------------------------------------------- arithmetic

  lemma MulMono(a: nat, b: nat, c: nat)
    requires a <= b
    ensures c * a <= c * b
  {
  }

  /** Row `r` of a `rows` x `cols` grid, column `c`: flat position is in range. */
  lemma GridIndex(r: nat, c: nat, rows: nat, cols: nat)
    requires r < rows && c < cols
    ensures r * cols + c < rows * cols && cols * r + c < cols * rows
  {
    CellIndex(r, c, rows, cols);
  }

  /** Splitting a flat position `k` of a grid `cols` wide into row and column. */
  lemma Split2(k: nat, cols: nat, rows: nat)
    requires cols > 0 && k < rows * cols
    ensures k == cols * (k / cols) + k % cols && 0 <= k % cols < cols && 0 <= k / cols < rows
  {
    DivBounds(k, cols);
    if k / cols >= rows {
      MulMono(rows, k / cols, cols);
    }
  }

  /** Positions built from distinct (row, column) pairs are distinct. */
  lemma SameCell(cols: nat, r1: nat, c1: nat, r2: nat, c2: nat)
    requires cols > 0 && c1 < cols && c2 < cols
    requires cols * r1 + c1 == cols * r2 + c2
    ensures r1 == r2 && c1 == c2
  {
    DivModUnique(cols * r1 + c1, cols, r1, c1);
    DivModUnique(cols * r2 + c2, cols, r2, c2);
  }

  /** A position is determined by its row and column. */
  lemma SamePosition(i: nat, j: nat, cols: nat)
    requires cols > 0 && i / cols == j / cols && i % cols == j % cols
    ensures i == j
  {
    assert i == cols * (i / cols) + i % cols;
    assert j == cols * (j / cols) + j % cols;
  }

  lemma MulSucc(m: nat, b: nat)
    ensures m * (b + 1) == m * b + m
  {
  }

  lemma Regroup(h: nat, w: nat)
    ensures 2 * h * w == h * (2 * w) && 2 * h * w == h * w + h * w
    ensures 4 * w * h == 2 * (2 * w * h) && 4 * w * h == h * (4 * w)
  {
  }

  // ---------------------------------------------------------------- step 1: cluster maps

  /** `sp_map` of the ePixUHR cluster: the 3x3 super-pixel transposed. */
  const SpMap: seq<int> := [0, 3, 6, 1, 4, 7, 2, 5, 8]

  lemma SpMapInvolution()
    ensures IsPermutation(SpMap)
    ensures forall t :: 0 <= t < 9 ==> SpMap[SpMap[t]] == t
  {
  }

  /**
   * The ePixUHR cluster map: the loop places `index + 8 * t` at
   * `SpMap[t] + 9 * index`; since `SpMap` is its own inverse, position
   * `9 * i + u` holds `i + 8 * SpMap[u]`.
   */
  function UhrClusterMap(): (cm: seq<int>)
    ensures |cm| == 72
  {
    seq(72, k requires 0 <= k < 72 => k / 9 + 8 * SpMap[k % 9])
  }

  /** Where the loop of the ePixUHR `lane_map` stores the value `index + 8 * t`. */
  function ScatterPosition(index: nat, t: nat): nat
    requires t < 9
  {
    SpMap[t] + 9 * index
  }

  lemma UhrClusterMapIsPermutation()
    ensures IsPermutation(UhrClusterMap())
    ensures forall index, t :: 0 <= index < 8 && 0 <= t < 9 ==> UhrClusterMap()[ScatterPosition(index, t)] == index + 8 * t
  {
    var cm := UhrClusterMap();
    SpMapInvolution();
    forall index, t | 0 <= index < 8 && 0 <= t < 9
      ensures cm[ScatterPosition(index, t)] == index + 8 * t
    {
      DivModUnique(ScatterPosition(index, t), 9, index, SpMap[t]);
    }
    forall i, j | 0 <= i < 72 && 0 <= j < 72 && cm[i] == cm[j]
      ensures i == j
    {
      DivModUnique(cm[i], 8, SpMap[i % 9], i / 9);
      DivModUnique(cm[j], 8, SpMap[j % 9], j / 9);
      assert SpMap[SpMap[i % 9]] == SpMap[SpMap[j % 9]];
      SamePosition(i, j, 9);
    }
  }

  /**
   * The scatter loop of `lane_map`: for each of the 8 clusters, the nine
   * values `index, index + 8, ..., index + 64` go to positions
   * `SpMap + 9 * index`.
   */
  method BuildUhrClusterMap() returns (cm: seq<int>)
    ensures cm == UhrClusterMap()
  {
    var a := new int[72];
    SpMapInvolution();
    var index := 0;
    while index < 8
      invariant 0 <= index <= 8
      invariant forall k :: 0 <= k < 9 * index ==> a[k] == UhrClusterMap()[k]
    {
      var t := 0;
      while t < 9
        invariant 0 <= t <= 9
        invariant forall k :: 0 <= k < 9 * index ==> a[k] == UhrClusterMap()[k]
        invariant forall t' :: 0 <= t' < t ==> a[ScatterPosition(index, t')] == index + 8 * t'
      {
        a[ScatterPosition(index, t)] := index + 8 * t;
        t := t + 1;
      }
      forall k | 9 * index <= k < 9 * index + 9
        ensures a[k] == UhrClusterMap()[k]
      {
        var u := k - 9 * index;
        DivModUnique(k, 9, index, u);
        assert ScatterPosition(index, SpMap[u]) == k;
      }
      index := index + 1;
    }
    cm := a[..];
  }

  // ---------------------------------------------------------------- step 2: split

  /** The row and column of position `k` in the h x 2w split cluster. */
  lemma SplitCoordinates(h: nat, w: nat, k: nat)
    requires w > 0 && k < 2 * h * w
    ensures 0 <= k / (2 * w) < h && 0 <= k % (2 * w) < 2 * w
  {
    Regroup(h, w);
    Split2(k, 2 * w, h);
  }

  /** The column within its half that column `c` of the split cluster reads, the right half optionally mirrored. */
  function HalfColumn(w: nat, flipHalf: bool, c: nat): (u: nat)
    requires c < 2 * w
    ensures u < w
  {
    if c < w then c else if flipHalf then 2 * w - 1 - c else c - w
  }

  lemma HalfColumnInjective(w: nat, flipHalf: bool, c1: nat, c2: nat)
    requires c1 < 2 * w && c2 < 2 * w && (c1 < w) == (c2 < w)
    requires HalfColumn(w, flipHalf, c1) == HalfColumn(w, flipHalf, c2)
    ensures c1 == c2
  {
  }

  /** Where row `r`, column `c` of the split h x 2w cluster reads from the cluster map. */
  function SplitAt(h: nat, w: nat, flipHalf: bool, r: nat, c: nat): (j: nat)
    requires r < h && c < 2 * w
    ensures j < 2 * h * w
  {
    Regroup(h, w);
    var u := HalfColumn(w, flipHalf, c);
    GridIndex(r, u, h, w);
    if c < w then w * r + u else h * w + w * r + u
  }

  lemma SplitAtInjective(h: nat, w: nat, flipHalf: bool, r1: nat, c1: nat, r2: nat, c2: nat)
    requires r1 < h && r2 < h && c1 < 2 * w && c2 < 2 * w
    requires SplitAt(h, w, flipHalf, r1, c1) == SplitAt(h, w, flipHalf, r2, c2)
    ensures r1 == r2 && c1 == c2
  {
    var u1, u2 := HalfColumn(w, flipHalf, c1), HalfColumn(w, flipHalf, c2);
    GridIndex(r1, u1, h, w);
    GridIndex(r2, u2, h, w);
    SameHalf(h * w, w * r1 + u1, w * r2 + u2, c1 < w, c2 < w);
    SameCell(w, r1, u1, r2, u2);
    HalfColumnInjective(w, flipHalf, c1, c2);
  }

  /** Positions in the two halves of a 2n-long sequence are told apart by the half. */
  lemma SameHalf(n: nat, p1: nat, p2: nat, first1: bool, first2: bool)
    requires p1 < n && p2 < n
    requires (if first1 then p1 else n + p1) == (if first2 then p2 else n + p2)
    ensures first1 == first2 && p1 == p2
  {
  }

  /** Where position `k` of the split h x 2w cluster reads from the cluster map. */
  function SplitSource(h: nat, w: nat, flipHalf: bool, k: nat): (j: nat)
    requires w > 0 && k < 2 * h * w
    ensures j < 2 * h * w
  {
    SplitCoordinates(h, w, k);
    SplitAt(h, w, flipHalf, k / (2 * w), k % (2 * w))
  }

  lemma SplitSourceInjective(h: nat, w: nat, flipHalf: bool, i: nat, j: nat)
    requires w > 0 && i < 2 * h * w && j < 2 * h * w
    requires SplitSource(h, w, flipHalf, i) == SplitSource(h, w, flipHalf, j)
    ensures i == j
  {
    SplitCoordinates(h, w, i);
    SplitCoordinates(h, w, j);
    SplitAtInjective(h, w, flipHalf, i / (2 * w), i % (2 * w), j / (2 * w), j % (2 * w));
    SamePosition(i, j, 2 * w);
  }

  /** The split moves every position: it is a permutation of the positions. */
  lemma SplitSourceIsPermutation(h: nat, w: nat, flipHalf: bool)
    requires w > 0
    ensures IsPermutation(seq(2 * h * w, k requires 0 <= k < 2 * h * w => SplitSource(h, w, flipHalf, k)))
  {
    var idx := seq(2 * h * w, k requires 0 <= k < 2 * h * w => SplitSource(h, w, flipHalf, k));
    forall i, j | 0 <= i < 2 * h * w && 0 <= j < 2 * h * w && idx[i] == idx[j]
      ensures i == j
    {
      SplitSourceInjective(h, w, flipHalf, i, j);
    }
  }

  /**
   * `np.concatenate([reshape(cm[:hw], (h, w)), [flip](reshape(cm[hw:], (h, w)), 1)], 1)`
   * read back row by row.
   */
  function Split(base: seq<int>, h: nat, w: nat, flipHalf: bool): (s: seq<int>)
    requires w > 0 && |base| == 2 * h * w
    ensures |s| == 2 * h * w
  {
    seq(2 * h * w, k requires 0 <= k < 2 * h * w => base[SplitSource(h, w, flipHalf, k)])
  }

  lemma SplitIsPermutation(base: seq<int>, h: nat, w: nat, flipHalf: bool)
    requires w > 0 && |base| == 2 * h * w && IsPermutation(base)
    ensures IsPermutation(Split(base, h, w, flipHalf))
  {
    var idx := seq(2 * h * w, k requires 0 <= k < 2 * h * w => SplitSource(h, w, flipHalf, k));
    SplitSourceIsPermutation(h, w, flipHalf);
    GatherPermutation(base, idx);
    assert Split(base, h, w, flipHalf) == Gather(base, idx);
  }

  // ---------------------------------------------------------------- step 3: columns

  /** `column_map`: block `b` of the `n` blocks is `n * cluster_map + b`. */
  function Columns(cm: seq<int>, n: nat): (col: seq<int>)
    requires |cm| > 0
    ensures |col| == |cm| * n
  {
    seq(|cm| * n, k requires 0 <= k < |cm| * n => (Split2(k, |cm|, n); n * cm[k % |cm|] + k / |cm|))
  }

  lemma ColumnsIsPermutation(cm: seq<int>, n: nat)
    requires |cm| > 0 && IsPermutation(cm)
    ensures IsPermutation(Columns(cm, n))
  {
    var col, m := Columns(cm, n), |cm|;
    forall k | 0 <= k < m * n
      ensures 0 <= col[k] < m * n
    {
      Split2(k, m, n);
      GridIndex(cm[k % m], k / m, m, n);
    }
    forall i, j | 0 <= i < m * n && 0 <= j < m * n && col[i] == col[j]
      ensures i == j
    {
      Split2(i, m, n);
      Split2(j, m, n);
      SameCell(n, cm[i % m], i / m, cm[j % m], j / m);
      SamePosition(i, j, m);
    }
  }

  /** Block `b` of the column map, as the append loop produces it. */
  lemma ColumnsBlock(cm: seq<int>, n: nat, b: nat, i: nat)
    requires |cm| > 0 && b < n && i < |cm|
    ensures |cm| * b + i < |cm| * n && Columns(cm, n)[|cm| * b + i] == n * cm[i] + b
  {
    GridIndex(b, i, n, |cm|);
    DivModUnique(|cm| * b + i, |cm|, b, i);
  }

  // ---------------------------------------------------------------- step 4: lanes

  /** The row and column of position `k` in a lane map whose rows are 4w wide. */
  lemma LaneCoordinates(w: nat, rows: nat, k: nat)
    requires w > 0 && k < 4 * w * rows
    ensures 0 <= k / (4 * w) < rows && 0 <= k % (4 * w) < 4 * w
  {
    Regroup(rows, w);
    Split2(k, 4 * w, rows);
  }

  /** Row `r`, column `c` of the lane map reads entry `ColumnOf` of the column map. */
  function LaneColumn(w: nat, rows: nat, flipFinal: bool, r: nat, c: nat): (j: nat)
    requires r < rows && c < 4 * w
    ensures j < 2 * w * rows
  {
    var c' := if flipFinal then 4 * w - 1 - c else c;
    var u := if c' < 2 * w then c' else c' - 2 * w;
    GridIndex(r, u, rows, 2 * w);
    Regroup(rows, w);
    2 * w * r + u
  }

  /** Whether row `r`, column `c` of the lane map holds the odd copy. */
  function LaneOdd(w: nat, flipFinal: bool, c: nat): bool
    requires c < 4 * w
  {
    var c' := if flipFinal then 4 * w - 1 - c else c;
    c' >= 2 * w
  }

  lemma LaneColumnInjective(w: nat, rows: nat, flipFinal: bool, r1: nat, c1: nat, r2: nat, c2: nat)
    requires r1 < rows && r2 < rows && c1 < 4 * w && c2 < 4 * w
    requires LaneOdd(w, flipFinal, c1) == LaneOdd(w, flipFinal, c2)
    requires LaneColumn(w, rows, flipFinal, r1, c1) == LaneColumn(w, rows, flipFinal, r2, c2)
    ensures r1 == r2 && c1 == c2
  {
    var c1' := if flipFinal then 4 * w - 1 - c1 else c1;
    var c2' := if flipFinal then 4 * w - 1 - c2 else c2;
    var u1 := if c1' < 2 * w then c1' else c1' - 2 * w;
    var u2 := if c2' < 2 * w then c2' else c2' - 2 * w;
    SameCell(2 * w, r1, u1, r2, u2);
  }

  /**
   * `np.concatenate([reshape(2 * col, (R, 2w)), reshape(2 * col + 1, (R, 2w))], 1)`,
   * optionally `np.flip(_, 1)`, read back row by row: rows are 4w wide.
   */
  function Lanes(col: seq<int>, w: nat, rows: nat, flipFinal: bool): (lm: seq<int>)
    requires w > 0 && |col| == 2 * w * rows
    ensures |lm| == 2 * |col|
  {
    Regroup(rows, w);
    seq(2 * |col|, k requires 0 <= k < 2 * |col| =>
      (LaneCoordinates(w, rows, k);
       var r, c := k / (4 * w), k % (4 * w);
       2 * col[LaneColumn(w, rows, flipFinal, r, c)] + (if LaneOdd(w, flipFinal, c) then 1 else 0)))
  }

  lemma LanesIsPermutation(col: seq<int>, w: nat, rows: nat, flipFinal: bool)
    requires w > 0 && |col| == 2 * w * rows && IsPermutation(col)
    ensures IsPermutation(Lanes(col, w, rows, flipFinal))
  {
    Regroup(rows, w);
    var lm := Lanes(col, w, rows, flipFinal);
    forall i, j | 0 <= i < |lm| && 0 <= j < |lm| && lm[i] == lm[j]
      ensures i == j
    {
      LaneCoordinates(w, rows, i);
      LaneCoordinates(w, rows, j);
      var ri, ci, rj, cj := i / (4 * w), i % (4 * w), j / (4 * w), j % (4 * w);
      LaneColumnInjective(w, rows, flipFinal, ri, ci, rj, cj);
      SamePosition(i, j, 4 * w);
    }
  }

  // ---------------------------------------------------------------- the whole builder

  /** The parameters that tell the four builders apart. */
  datatype Layout = Layout(h: nat, w: nat, flipHalf: bool, clusters: nat, flipFinal: bool)

  predicate ValidLayout(g: Layout, base: seq<int>)
  {
    g.h > 0 && g.w > 0 && |base| == 2 * g.h * g.w
  }

  lemma LayoutSize(g: Layout, base: seq<int>)
    requires ValidLayout(g, base)
    ensures |base| * g.clusters == 2 * g.w * (g.h * g.clusters)
  {
  }

  function LaneMap(g: Layout, base: seq<int>): (lm: seq<int>)
    requires ValidLayout(g, base)
    ensures |lm| == 2 * |base| * g.clusters
  {
    LayoutSize(g, base);
    Lanes(Columns(Split(base, g.h, g.w, g.flipHalf), g.clusters), g.w, g.h * g.clusters, g.flipFinal)
  }

  /** Every lane map built from a permuted cluster is a permutation of its positions. */
  lemma LaneMapIsPermutation(g: Layout, base: seq<int>)
    requires ValidLayout(g, base) && IsPermutation(base)
    ensures IsPermutation(LaneMap(g, base))
  {
    LayoutSize(g, base);
    var s := Split(base, g.h, g.w, g.flipHalf);
    SplitIsPermutation(base, g.h, g.w, g.flipHalf);
    ColumnsIsPermutation(s, g.clusters);
    LanesIsPermutation(Columns(s, g.clusters), g.w, g.h * g.clusters, g.flipFinal);
  }

  /**
   * The append loop of `lane_map`: the column map grows one block of
   * `|split|` entries per cluster; the final interleave is vectorised.
   */
  method BuildLaneMap(g: Layout, base: seq<int>) returns (lm: seq<int>)
    requires ValidLayout(g, base)
    ensures lm == LaneMap(g, base)
  {
    var split := Split(base, g.h, g.w, g.flipHalf);
    var m, n := |split|, g.clusters;
    ghost var full := Columns(split, n);
    var col: seq<int> := [];
    var b := 0;
    while b < n
      invariant 0 <= b <= n && m * b <= |full|
      invariant col == full[..m * b]
    {
      var block := seq(m, i requires 0 <= i < m => n * split[i] + b);
      ColumnsPrefix(split, n, b);
      col := col + block;
      b := b + 1;
    }
    assert col == full;
    LayoutSize(g, base);
    lm := Lanes(col, g.w, g.h * g.clusters, g.flipFinal);
  }

  /** Cluster `b`'s block of the column map follows the blocks before it. */
  lemma ColumnsPrefix(cm: seq<int>, n: nat, b: nat)
    requires |cm| > 0 && b < n
    ensures |cm| * b + |cm| == |cm| * (b + 1) <= |cm| * n
    ensures Columns(cm, n)[..|cm| * (b + 1)] ==
            Columns(cm, n)[..|cm| * b] + seq(|cm|, i requires 0 <= i < |cm| => n * cm[i] + b)
  {
    var full, m := Columns(cm, n), |cm|;
    MulSucc(m, b);
    RowStart(b, n, m);
    assert m * b + m <= m * n by { assert b * m == m * b && n * m == m * n; }
    forall i | 0 <= i < m
      ensures full[m * b .. m * b + m][i] == n * cm[i] + b
    {
      ColumnsBlock(cm, n, b, i);
    }
    assert full[..m * b + m] == full[..m * b] + full[m * b .. m * b + m];
  }

  // ---------------------------------------------------------------- instances

  /**
   * ePixUHR with `clusters` clusters: the 100 kHz receiver and the
   * stand-alone ePixUHR receiver reverse the second half of the cluster and
   * every final row; the older copy kept beside the analysis code does neither.
   */
  function UhrLayout(clusters: nat, flipped: bool): Layout
  {
    Layout(12, 3, flipped, clusters, flipped)
  }

  /** ePixUHR in MHz mode: an 8-entry identity cluster, 14 clusters, no flips. */
  const MhzLayout: Layout := Layout(4, 1, false, 14, false)

  lemma UhrLaneMapFacts(clusters: nat, flipped: bool)
    ensures ValidLayout(UhrLayout(clusters, flipped), UhrClusterMap())
    ensures |LaneMap(UhrLayout(clusters, flipped), UhrClusterMap())| == 144 * clusters
    ensures IsPermutation(LaneMap(UhrLayout(clusters, flipped), UhrClusterMap()))
  {
    UhrClusterMapIsPermutation();
    LaneMapIsPermutation(UhrLayout(clusters, flipped), UhrClusterMap());
  }

  /** The MHz cluster is read as [0, 4, 1, 5, 2, 6, 3, 7]; its lane map has 224 entries. */
  lemma MhzLaneMapFacts()
    ensures ValidLayout(MhzLayout, Identity(8))
    ensures Split(Identity(8), 4, 1, false) == [0, 4, 1, 5, 2, 6, 3, 7]
    ensures |LaneMap(MhzLayout, Identity(8))| == 224
    ensures IsPermutation(LaneMap(MhzLayout, Identity(8)))
  {
    var s := Split(Identity(8), 4, 1, false);
    forall k | 0 <= k < 8
      ensures s[k] == [0, 4, 1, 5, 2, 6, 3, 7][k]
    {
      SplitCoordinates(4, 1, k);
    }
    LaneMapIsPermutation(MhzLayout, Identity(8));
  }

  /** `lane_map` of the ePixUHR receivers: the scatter loop, then the common builder. */
  method BuildUhrLaneMap(clusters: nat, flipped: bool) returns (lm: seq<int>)
    ensures lm == LaneMap(UhrLayout(clusters, flipped), UhrClusterMap())
    ensures |lm| == 144 * clusters && IsPermutation(lm)
  {
    var cm := BuildUhrClusterMap();
    UhrLaneMapFacts(clusters, flipped);
    lm := BuildLaneMap(UhrLayout(clusters, flipped), cm);
  }

  /** `lane_map_MHz`: the identity cluster loop, then the common builder. */
  method BuildMhzLaneMap() returns (lm: seq<int>)
    ensures lm == LaneMap(MhzLayout, Identity(8))
    ensures |lm| == 224 && IsPermutation(lm)
  {
    var a := new int[8];
    var index := 0;
    while index < 8
      invariant 0 <= index <= 8
      invariant forall k :: 0 <= k < index ==> a[k] == k
    {
      a[index] := index;
      index := index + 1;
    }
    assert a[..] == Identity(8);
    MhzLaneMapFacts();
    lm := BuildLaneMap(MhzLayout, a[..]);
  }

  // ---------------------------------------------------------------- SparkPix-RT

  /** The SparkPix-RT cluster: identity over 72, split 12 x 6 with the right half reversed. */
  function SparkCluster(): (cm: seq<int>)
    ensures |cm| == 72 && IsPermutation(cm)
  {
    SplitIsPermutation(Identity(72), 12, 3, true);
    Split(Identity(72), 12, 3, true)
  }

  /**
   * `row_map_RT` before its read-out: for lanes 0..7 the block
   * `8 * cluster + lane` (12 x 6) is appended on the right, so column `j` of
   * row `r` holds `8 * cluster[6 r + j % 6] + j / 6`.
   */
  function RowMapTable(): (t: Matrix<int>)
    ensures IsMatrix(t, 12, 48)
    ensures forall r, j :: 0 <= r < 12 && 0 <= j < 48 ==> 0 <= t[r][j] < 576
  {
    var cm := SparkCluster();
    seq(12, r requires 0 <= r < 12 => seq(48, j requires 0 <= j < 48 => 8 * cm[6 * r + j % 6] + j / 6))
  }

  /** `row_map_RT`: the table read row by row. */
  function RowMapRT(): (rm: seq<int>)
    ensures |rm| == 576
    ensures forall k :: 0 <= k < 576 ==> 0 <= rm[k] < 576
  {
    var t := RowMapTable();
    FlattenBounded(t);
    Flatten(t)
  }

  /** Flattening a 12 x 48 table of positions below 576 keeps them below 576. */
  lemma FlattenBounded(t: Matrix<int>)
    requires IsMatrix(t, 12, 48)
    requires forall r, j :: 0 <= r < 12 && 0 <= j < 48 ==> 0 <= t[r][j] < 576
    ensures |Flatten(t)| == 576
    ensures forall k :: 0 <= k < 576 ==> 0 <= Flatten(t)[k] < 576
  {
    FlattenLength(t, 12, 48);
    forall k | 0 <= k < 576
      ensures 0 <= Flatten(t)[k] < 576
    {
      FlattenAt(t, 12, 48, k / 48, k % 48);
    }
  }

  lemma RowMapTableInjective(r1: nat, j1: nat, r2: nat, j2: nat)
    requires r1 < 12 && j1 < 48 && r2 < 12 && j2 < 48
    requires RowMapTable()[r1][j1] == RowMapTable()[r2][j2]
    ensures r1 == r2 && j1 == j2
  {
    var cm := SparkCluster();
    DivModUnique(RowMapTable()[r1][j1], 8, cm[6 * r1 + j1 % 6], j1 / 6);
    DivModUnique(RowMapTable()[r2][j2], 8, cm[6 * r2 + j2 % 6], j2 / 6);
    SameCell(6, r1, j1 % 6, r2, j2 % 6);
    SamePosition(j1, j2, 6);
  }

  lemma RowMapRTIsPermutation()
    ensures IsPermutation(RowMapRT())
  {
    var rm := RowMapRT();
    forall i, j | 0 <= i < 576 && 0 <= j < 576 && rm[i] == rm[j]
      ensures i == j
    {
      RowMapRTInjective(i, j);
    }
  }

  /** Position `k` of `row_map_RT` is row k / 48, column k % 48 of the table. */
  lemma RowMapRTAt(k: nat)
    requires k < 576
    ensures k / 48 < 12 && k % 48 < 48
    ensures RowMapRT()[k] == RowMapTable()[k / 48][k % 48]
  {
    FlattenCell(RowMapTable(), k);
  }

  /** Position `k` of a flattened 12 x 48 table is row k / 48, column k % 48. */
  lemma FlattenCell(t: Matrix<int>, k: nat)
    requires IsMatrix(t, 12, 48) && k < 576
    ensures k / 48 < 12 && k % 48 < 48 && |Flatten(t)| == 576
    ensures Flatten(t)[k] == t[k / 48][k % 48]
  {
    FlattenAt(t, 12, 48, k / 48, k % 48);
  }

  lemma RowMapRTInjective(i: nat, j: nat)
    requires i < 576 && j < 576 && RowMapRT()[i] == RowMapRT()[j]
    ensures i == j
  {
    RowMapRTAt(i);
    RowMapRTAt(j);
    RowMapTableInjective(i / 48, i % 48, j / 48, j % 48);
    SamePosition(i, j, 48);
  }

  /** Row `r` of the block `8 * cluster + lane` that lane `n` contributes. */
  function LaneBlock(cm: seq<int>, r: nat, n: nat): (b: seq<int>)
    requires |cm| == 72 && r < 12
    ensures |b| == 6
  {
    seq(6, c requires 0 <= c < 6 => 8 * cm[6 * r + c] + n)
  }

  lemma RowMapTableBlock(r: nat, n: nat)
    requires r < 12 && n < 8
    ensures RowMapTable()[r][..6 * n + 6] == RowMapTable()[r][..6 * n] + LaneBlock(SparkCluster(), r, n)
  {
    var t, block := RowMapTable(), LaneBlock(SparkCluster(), r, n);
    forall c | 0 <= c < 6
      ensures t[r][6 * n .. 6 * n + 6][c] == block[c]
    {
      DivModUnique(6 * n + c, 6, n, c);
    }
    assert t[r][..6 * n + 6] == t[r][..6 * n] + t[r][6 * n .. 6 * n + 6];
  }

  /**
   * The concatenation loop of `row_map_RT`, one 12 x 6 block per lane,
   * followed by the row-major read-out.
   */
  method BuildRowMapRT() returns (rm: seq<int>)
    ensures rm == RowMapRT()
    ensures IsPermutation(rm)
  {
    var cm := SparkCluster();
    ghost var t := RowMapTable();
    var rows: Matrix<int> := seq(12, _ => []);
    var n := 0;
    while n < 8
      invariant 0 <= n <= 8
      invariant IsMatrix(rows, 12, 6 * n)
      invariant forall r :: 0 <= r < 12 ==> rows[r] == t[r][..6 * n]
    {
      forall r | 0 <= r < 12
        ensures t[r][..6 * n + 6] == t[r][..6 * n] + LaneBlock(cm, r, n)
      {
        RowMapTableBlock(r, n);
      }
      rows := seq(12, r requires 0 <= r < 12 && |rows| == 12 => rows[r] + LaneBlock(cm, r, n));
      n := n + 1;
    }
    forall r | 0 <= r < 12
      ensures rows[r] == t[r]
    {
      assert t[r][..48] == t[r];
    }
    assert rows == t;
    rm := Flatten(rows);
    RowMapRTIsPermutation();
  }
}
