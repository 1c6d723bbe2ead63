/**
 * The descramblers of the cluster-based ASICs: ePixUHR at 100 kHz (any
 * number of clusters), the stand-alone ePixUHR receiver, the older ePixUHR
 * copy kept beside the analysis code, ePixUHR in MHz mode, and SparkPix-RT.
 *
 * Every one of them cuts the payload after a 16-byte header into
 * byte-reversed words, unpacks each word into one 12-bit sample per lane,
 * reorders the lane samples through a permutation table, flips the image,
 * optionally folds the gain bit, and masks every pixel.
 */
module Uhr {
  import opened Common
  import opened Bits
  import opened Unpack12
  import opened LaneMaps

  /** Every cell of `m` lies in 0 .. bound-1. */
  ghost predicate Bounded(m: Matrix<int>, bound: nat)
  {
    forall r, c :: 0 <= r < |m| && 0 <= c < |m[r]| ==> 0 <= m[r][c] < bound
  }

  /** `np.where(v % 2 == 0, v // 2, (v - 1) // 2 + 2048)` on every pixel. */
  function FoldGain(m: Matrix<int>): (g: Matrix<int>)
    requires Bounded(m, 4096)
    ensures |g| == |m| && Bounded(g, 4096)
    ensures forall r :: 0 <= r < |m| ==> |g[r]| == |m[r]|
    ensures forall r, c :: 0 <= r < |m| && 0 <= c < |m[r]| ==> g[r][c] == GainFold(m[r][c])
  {
    seq(|m|, r requires 0 <= r < |m| => seq(|m[r]|, c requires 0 <= c < |m[r]| =>
      (GainFoldBijective(m[r][c], 0); GainFold(m[r][c]))))
  }

  /** `np.bitwise_and(m, PixelBitMask)`. */
  function MaskPixels(m: Matrix<int>, mask: nat): (g: Matrix<int>)
    requires Bounded(m, 4096)
    ensures |g| == |m|
    ensures forall r :: 0 <= r < |m| ==> |g[r]| == |m[r]|
    ensures forall r, c :: 0 <= r < |m| && 0 <= c < |m[r]| ==> g[r][c] == And(m[r][c], mask) && g[r][c] <= mask
  {
    var g := seq(|m|, r requires 0 <= r < |m| => seq(|m[r]|, c requires 0 <= c < |m[r]| => And(m[r][c], mask)));
    assert forall r, c :: 0 <= r < |m| && 0 <= c < |m[r]| ==> g[r][c] <= mask by {
      forall r, c | 0 <= r < |m| && 0 <= c < |m[r]|
        ensures g[r][c] <= mask
      {
        AndBounded(m[r][c], mask);
      }
    }
    g
  }

  lemma FlipBounded(m: Matrix<int>, bound: nat)
    requires Bounded(m, bound)
    ensures Bounded(FlipRows(m), bound) && Bounded(FlipCols(m), bound)
  {
  }

  // ---------------------------------------------------------------- frame_reorder

  /**
   * The lane and sample that pixel (r, j) of the reordered frame comes from:
   * the frame is 16 lanes of `cols` columns each, and column `k` of lane `l`
   * in row `r` is sample `1 + laneMap[r * cols + k]` of that lane.
   */
  function FrameSource(laneMap: seq<int>, rows: nat, cols: nat, r: nat, j: nat): (src: (int, int))
    requires IsLaneMap(laneMap, rows, cols) && r < rows && j < 16 * cols
    ensures 0 <= src.0 < 16 && 1 <= src.1 <= |laneMap|
  {
    SplitPosition(j, cols, 16);
    GridIndex(r, j % cols, rows, cols);
    (j / cols, 1 + laneMap[r * cols + j % cols])
  }

  lemma SplitPosition(j: nat, cols: nat, n: nat)
    requires cols > 0 && j < n * cols
    ensures 0 <= j / cols < n && 0 <= j % cols < cols
  {
    Split2(j, cols, n);
  }

  ghost predicate IsLaneMap(laneMap: seq<int>, rows: nat, cols: nat)
  {
    cols > 0 && |laneMap| == rows * cols && IsPermutation(laneMap)
  }

  /**
   * `frame_reorder`: the 16 lanes side by side, each lane's samples after the
   * first gathered through the lane map and cut into rows of `cols`.  (The
   * source collects the lanes behind a NaN column, drops the NaNs and
   * reshapes to rows x 16*cols, which gives back exactly this matrix.)
   */
  function FrameReorder(lanes: Matrix<int>, laneMap: seq<int>, rows: nat, cols: nat): (f: Matrix<int>)
    requires IsLaneMap(laneMap, rows, cols) && IsMatrix(lanes, 16, |laneMap| + 1)
    ensures IsMatrix(f, rows, 16 * cols)
    ensures forall r, j :: 0 <= r < rows && 0 <= j < 16 * cols ==>
              f[r][j] == lanes[FrameSource(laneMap, rows, cols, r, j).0][FrameSource(laneMap, rows, cols, r, j).1]
  {
    seq(rows, r requires 0 <= r < rows => FrameRow(lanes, laneMap, rows, cols, r))
  }

  /** Row `r` of the reordered frame. */
  function FrameRow(lanes: Matrix<int>, laneMap: seq<int>, rows: nat, cols: nat, r: nat): (row: seq<int>)
    requires IsLaneMap(laneMap, rows, cols) && IsMatrix(lanes, 16, |laneMap| + 1) && r < rows
    ensures |row| == 16 * cols
  {
    seq(16 * cols, j requires 0 <= j < 16 * cols => FramePixel(lanes, laneMap, rows, cols, r, j))
  }

  /** The lane sample that pixel (r, j) of the reordered frame holds. */
  function FramePixel(lanes: Matrix<int>, laneMap: seq<int>, rows: nat, cols: nat, r: nat, j: nat): int
    requires IsLaneMap(laneMap, rows, cols) && IsMatrix(lanes, 16, |laneMap| + 1)
    requires r < rows && j < 16 * cols
  {
    var src := FrameSource(laneMap, rows, cols, r, j);
    lanes[src.0][src.1]
  }

  /** No lane sample lands in two pixels. */
  lemma FrameSourceInjective(laneMap: seq<int>, rows: nat, cols: nat, r1: nat, j1: nat, r2: nat, j2: nat)
    requires IsLaneMap(laneMap, rows, cols)
    requires r1 < rows && j1 < 16 * cols && r2 < rows && j2 < 16 * cols
    requires FrameSource(laneMap, rows, cols, r1, j1) == FrameSource(laneMap, rows, cols, r2, j2)
    ensures r1 == r2 && j1 == j2
  {
    SplitPosition(j1, cols, 16);
    SplitPosition(j2, cols, 16);
    GridIndex(r1, j1 % cols, rows, cols);
    GridIndex(r2, j2 % cols, rows, cols);
    LaneMapCellInjective(laneMap, rows, cols, r1, j1 % cols, r2, j2 % cols);
    SamePosition(j1, j2, cols);
  }

  /** Distinct cells of the lane map hold distinct samples. */
  lemma LaneMapCellInjective(laneMap: seq<int>, rows: nat, cols: nat, r1: nat, c1: nat, r2: nat, c2: nat)
    requires IsLaneMap(laneMap, rows, cols)
    requires r1 < rows && c1 < cols && r2 < rows && c2 < cols
    requires r1 * cols + c1 < |laneMap| && r2 * cols + c2 < |laneMap|
    requires laneMap[r1 * cols + c1] == laneMap[r2 * cols + c2]
    ensures r1 == r2 && c1 == c2
  {
    var k1, k2 := r1 * cols + c1, r2 * cols + c2;
    assert k1 == k2;
    assert cols * r1 + c1 == cols * r2 + c2;
    SameCell(cols, r1, c1, r2, c2);
  }

  /** Every sample but the first of every lane lands in some pixel. */
  lemma FrameSourceCovers(laneMap: seq<int>, rows: nat, cols: nat, l: nat, s: nat)
    requires IsLaneMap(laneMap, rows, cols)
    requires l < 16 && 1 <= s <= |laneMap|
    ensures exists r, j :: 0 <= r < rows && 0 <= j < 16 * cols && FrameSource(laneMap, rows, cols, r, j) == (l, s)
  {
    PermutationCovers(laneMap, s - 1);
    var k :| 0 <= k < |laneMap| && laneMap[k] == s - 1;
    Split2(k, cols, rows);
    var r, c := k / cols, k % cols;
    var j := cols * l + c;
    GridIndex(l, c, 16, cols);
    DivModUnique(j, cols, l, c);
    assert r * cols + c == k;
    assert FrameSource(laneMap, rows, cols, r, j) == (l, s);
  }

  /** Row `r` of lane `l`'s block in the reordered frame. */
  function LaneBlockRow(lanes: Matrix<int>, laneMap: seq<int>, rows: nat, cols: nat, l: nat, r: nat): (b: seq<int>)
    requires IsLaneMap(laneMap, rows, cols) && IsMatrix(lanes, 16, |laneMap| + 1)
    requires l < 16 && r < rows
    ensures |b| == cols
  {
    seq(cols, k requires 0 <= k < cols => (CellIndex(r, k, rows, cols); lanes[l][1 + laneMap[r * cols + k]]))
  }

  lemma FrameReorderBlock(lanes: Matrix<int>, laneMap: seq<int>, rows: nat, cols: nat, l: nat, r: nat)
    requires IsLaneMap(laneMap, rows, cols) && IsMatrix(lanes, 16, |laneMap| + 1)
    requires l < 16 && r < rows
    ensures cols * l + cols <= 16 * cols
    ensures FrameReorder(lanes, laneMap, rows, cols)[r][..cols * l + cols] ==
            FrameReorder(lanes, laneMap, rows, cols)[r][..cols * l] + LaneBlockRow(lanes, laneMap, rows, cols, l, r)
  {
    var row, block := FrameReorder(lanes, laneMap, rows, cols)[r], LaneBlockRow(lanes, laneMap, rows, cols, l, r);
    GridIndex(l, cols - 1, 16, cols);
    forall k | 0 <= k < cols
      ensures row[cols * l .. cols * l + cols][k] == block[k]
    {
      GridIndex(l, k, 16, cols);
      DivModUnique(cols * l + k, cols, l, k);
    }
    assert row[..cols * l + cols] == row[..cols * l] + row[cols * l .. cols * l + cols];
  }

  /** Lane `l`'s block of the reordered frame: its samples gathered and cut into rows of `cols`. */
  function LaneBlock(lanes: Matrix<int>, laneMap: seq<int>, rows: nat, cols: nat, l: nat): (b: Matrix<int>)
    requires IsLaneMap(laneMap, rows, cols) && IsMatrix(lanes, 16, |laneMap| + 1) && l < 16
    ensures IsMatrix(b, rows, cols)
  {
    seq(rows, r requires 0 <= r < rows => LaneBlockRow(lanes, laneMap, rows, cols, l, r))
  }

  /** `frame` holds the first `l` lane blocks of the reordered frame, side by side. */
  ghost predicate ReorderedPrefix(frame: Matrix<int>, lanes: Matrix<int>, laneMap: seq<int>, rows: nat, cols: nat, l: nat)
  {
    IsLaneMap(laneMap, rows, cols) && IsMatrix(lanes, 16, |laneMap| + 1) && l <= 16 && |frame| == rows &&
    forall r :: 0 <= r < rows ==> frame[r] == FrameReorder(lanes, laneMap, rows, cols)[r][..cols * l]
  }

  /** Appending lane `l`'s block extends the prefix by one lane. */
  lemma ReorderStep(frame: Matrix<int>, lanes: Matrix<int>, laneMap: seq<int>, rows: nat, cols: nat, l: nat)
    requires ReorderedPrefix(frame, lanes, laneMap, rows, cols, l) && l < 16
    ensures ReorderedPrefix(SideBySide(frame, LaneBlock(lanes, laneMap, rows, cols, l)), lanes, laneMap, rows, cols, l + 1)
  {
    var next := SideBySide(frame, LaneBlock(lanes, laneMap, rows, cols, l));
    assert cols * l + cols == cols * (l + 1);
    forall r | 0 <= r < rows
      ensures next[r] == FrameReorder(lanes, laneMap, rows, cols)[r][..cols * (l + 1)]
    {
      FrameReorderBlock(lanes, laneMap, rows, cols, l, r);
    }
  }

  /** All 16 lanes make the whole frame. */
  lemma ReorderDone(frame: Matrix<int>, lanes: Matrix<int>, laneMap: seq<int>, rows: nat, cols: nat)
    requires ReorderedPrefix(frame, lanes, laneMap, rows, cols, 16)
    ensures frame == FrameReorder(lanes, laneMap, rows, cols)
  {
    var spec := FrameReorder(lanes, laneMap, rows, cols);
    forall r | 0 <= r < rows
      ensures frame[r] == spec[r]
    {
      assert spec[r][..cols * 16] == spec[r];
    }
  }

  /**
   * The lane loop of `frame_reorder`: lane after lane, the gathered and
   * reshaped samples are concatenated on the right.
   */
  method FrameReorderLoop(lanes: Matrix<int>, laneMap: seq<int>, rows: nat, cols: nat) returns (frame: Matrix<int>)
    requires IsLaneMap(laneMap, rows, cols) && IsMatrix(lanes, 16, |laneMap| + 1)
    ensures frame == FrameReorder(lanes, laneMap, rows, cols)
  {
    frame := seq(rows, _ => []);
    var l := 0;
    while l < 16
      invariant 0 <= l <= 16
      invariant ReorderedPrefix(frame, lanes, laneMap, rows, cols, l)
    {
      ReorderStep(frame, lanes, laneMap, rows, cols, l);
      var laneTmp := LaneBlock(lanes, laneMap, rows, cols, l);
      frame := SideBySide(frame, laneTmp);
      l := l + 1;
    }
    ReorderDone(frame, lanes, laneMap, rows, cols);
  }

  // ---------------------------------------------------------------- the ePixUHR family

  /**
   * The 100 kHz receiver's cluster count: with none, `lane_map` calls
   * `astype` on an empty list and the constructor raises.
   */
  type ClusterCount = n: nat | n > 0 witness 14

  /** The four receivers that share `frame_reorder`. */
  datatype UhrVariant =
    | Uhr100kHz(clusters: ClusterCount)  // python/ePixViewer/asics/ePixUhr100kHz.py
    | UhrStandalone             // software/deviceFiles/ePixUhr.py (14 clusters)
    | UhrLegacy                 // the copy in software/epix_viewer/dataReceivers.py
    | UhrMhz                    // ePixUHR in MHz mode

  function Rows(v: UhrVariant): nat
  {
    match v
    case Uhr100kHz(n) => 12 * n
    case UhrMhz => 56
    case _ => 168
  }

  /** Columns per lane in the reordered frame. */
  function LaneCols(v: UhrVariant): nat
  {
    if v.UhrMhz? then 4 else 12
  }

  function VariantLaneMap(v: UhrVariant): (lm: seq<int>)
    ensures IsLaneMap(lm, Rows(v), LaneCols(v))
  {
    match v
    case Uhr100kHz(n) =>
      UhrLaneMapFacts(n, true);
      LaneMap(UhrLayout(n, true), UhrClusterMap())
    case UhrStandalone =>
      UhrLaneMapFacts(14, true);
      LaneMap(UhrLayout(14, true), UhrClusterMap())
    case UhrLegacy =>
      UhrLaneMapFacts(14, false);
      LaneMap(UhrLayout(14, false), UhrClusterMap())
    case UhrMhz =>
      MhzLaneMapFacts();
      LaneMap(MhzLayout, Identity(8))
  }

  /** Number of 24-byte words read: one per lane-map entry plus the leading sample. */
  function Words(v: UhrVariant): nat
  {
    |VariantLaneMap(v)| + 1
  }

  /** The 100 kHz and stand-alone receivers flip both axes; the others flip rows only. */
  predicate FlipsBothAxes(v: UhrVariant)
  {
    v.Uhr100kHz? || v.UhrStandalone?
  }

  /** Only the 100 kHz receiver honours the GainMSB setting. */
  predicate HonoursGain(v: UhrVariant)
  {
    v.Uhr100kHz?
  }

  lemma FrameReorderBounded(lanes: Matrix<int>, laneMap: seq<int>, rows: nat, cols: nat)
    requires IsLaneMap(laneMap, rows, cols) && IsMatrix(lanes, 16, |laneMap| + 1)
    requires Bounded(lanes, 4096)
    ensures Bounded(FrameReorder(lanes, laneMap, rows, cols), 4096)
  {
    var f := FrameReorder(lanes, laneMap, rows, cols);
    forall r, j | 0 <= r < rows && 0 <= j < 16 * cols
      ensures 0 <= f[r][j] < 4096
    {
      var src := FrameSource(laneMap, rows, cols, r, j);
      assert f[r][j] == lanes[src.0][src.1];
    }
  }

  /** The reordered frame of a payload long enough for the variant. */
  function UhrFrame(v: UhrVariant, payload: seq<int>): (f: Matrix<int>)
    requires AreBytes(payload) && |payload| >= 16 + 24 * Words(v)
    ensures IsMatrix(f, Rows(v), 16 * LaneCols(v)) && Bounded(f, 4096)
    ensures f == FrameReorder(LaneSamples(payload, 16, 24, Words(v)), VariantLaneMap(v), Rows(v), LaneCols(v))
  {
    var lanes := LaneSamples(payload, 16, 24, Words(v));
    FrameReorderBounded(lanes, VariantLaneMap(v), Rows(v), LaneCols(v));
    FrameReorder(lanes, VariantLaneMap(v), Rows(v), LaneCols(v))
  }

  /** Index `i` of `n`, counted from the other end when `flip`. */
  function Mirror(n: nat, flip: bool, i: nat): (j: nat)
    requires i < n
    ensures j < n
  {
    if flip then n - 1 - i else i
  }

  /** `np.flip(frame, 0)`, followed by `np.flip(_, 1)` when `both`. */
  function Orient(m: Matrix<int>, rows: nat, cols: nat, both: bool): (o: Matrix<int>)
    requires IsMatrix(m, rows, cols) && Bounded(m, 4096)
    ensures IsMatrix(o, rows, cols) && Bounded(o, 4096)
    ensures forall r, c :: 0 <= r < rows && 0 <= c < cols ==>
              o[r][c] == m[rows - 1 - r][Mirror(cols, both, c)]
  {
    FlipBounded(m, 4096);
    FlipBounded(FlipRows(m), 4096);
    if both then FlipCols(FlipRows(m)) else FlipRows(m)
  }

  /** The optional gain fold, then the mask. */
  function Finish(m: Matrix<int>, fold: bool, mask: nat): (g: Matrix<int>)
    requires Bounded(m, 4096)
    ensures |g| == |m|
    ensures forall r :: 0 <= r < |m| ==> |g[r]| == |m[r]|
    ensures forall r, c :: 0 <= r < |m| && 0 <= c < |m[r]| ==>
              g[r][c] == And(if fold then GainFold(m[r][c]) else m[r][c], mask)
  {
    MaskPixels(if fold then FoldGain(m) else m, mask)
  }

  /** The image `descramble` returns, or the reshape failure on a short payload. */
  function UhrImage(v: UhrVariant, payload: seq<int>, gainMSB: bool, mask: nat): (res: Result<Matrix<int>>)
    requires AreBytes(payload)
    ensures res.Ok? <==> |payload| >= 16 + 24 * Words(v)
    ensures res.Ok? ==> IsMatrix(res.value, Rows(v), 16 * LaneCols(v))
  {
    if |payload| < 16 + 24 * Words(v) then Err(ReshapeError)
    else
      Ok(Finish(UhrOriented(v, payload), HonoursGain(v) && gainMSB, mask))
  }

  /** The 16-byte header and the `24 * Words` data bytes. */
  lemma UhrWordCounts()
    ensures Words(UhrStandalone) == 2017 && Words(UhrLegacy) == 2017 && Words(UhrMhz) == 225
    ensures forall n: ClusterCount :: Words(Uhr100kHz(n)) == 144 * n + 1
    ensures Rows(UhrStandalone) == 168 && 16 * LaneCols(UhrStandalone) == 192
    ensures Rows(UhrMhz) == 56 && 16 * LaneCols(UhrMhz) == 64
  {
    UhrLaneMapFacts(14, true);
    UhrLaneMapFacts(14, false);
    MhzLaneMapFacts();
    forall n: ClusterCount
      ensures Words(Uhr100kHz(n)) == 144 * n + 1
    {
      UhrLaneMapFacts(n, true);
    }
  }

  /**
   * Where pixel (r, c) of the image comes from: undo the flips, then read
   * the lane sample `FrameSource` names.
   */
  lemma UhrPixel(v: UhrVariant, payload: seq<int>, gainMSB: bool, mask: nat, r: nat, c: nat)
    requires AreBytes(payload) && |payload| >= 16 + 24 * Words(v)
    requires r < Rows(v) && c < 16 * LaneCols(v)
    ensures UhrImage(v, payload, gainMSB, mask).value[r][c] ==
            And(if HonoursGain(v) && gainMSB then GainFold(UhrSample(v, payload, r, c)) else UhrSample(v, payload, r, c), mask)
  {
    UhrOrientedAt(v, payload, r, c);
  }

  /** The reordered frame after the flips. */
  function UhrOriented(v: UhrVariant, payload: seq<int>): (o: Matrix<int>)
    requires AreBytes(payload) && |payload| >= 16 + 24 * Words(v)
    ensures IsMatrix(o, Rows(v), 16 * LaneCols(v)) && Bounded(o, 4096)
  {
    Orient(UhrFrame(v, payload), Rows(v), 16 * LaneCols(v), FlipsBothAxes(v))
  }

  lemma UhrOrientedAt(v: UhrVariant, payload: seq<int>, r: nat, c: nat)
    requires AreBytes(payload) && |payload| >= 16 + 24 * Words(v)
    requires r < Rows(v) && c < 16 * LaneCols(v)
    ensures UhrOriented(v, payload)[r][c] == UhrSample(v, payload, r, c)
  {
    var laneMap, rows, cols := VariantLaneMap(v), Rows(v), LaneCols(v);
    var lanes := LaneSamples(payload, 16, 24, |laneMap| + 1);
    var frame := UhrFrame(v, payload);
    assert IsMatrix(lanes, 16, |laneMap| + 1);
    assert frame == FrameReorder(lanes, laneMap, rows, cols);
    OrientedReorderAt(frame, lanes, laneMap, rows, cols, FlipsBothAxes(v), r, c);
  }

  /** Pixel (r, c) of a flipped reordered frame, traced back through the flips to its lane sample. */
  lemma OrientedReorderAt(frame: Matrix<int>, lanes: Matrix<int>, laneMap: seq<int>, rows: nat, cols: nat, both: bool, r: nat, c: nat)
    requires IsLaneMap(laneMap, rows, cols) && IsMatrix(lanes, 16, |laneMap| + 1)
    requires frame == FrameReorder(lanes, laneMap, rows, cols) && Bounded(frame, 4096)
    requires r < rows && c < 16 * cols
    ensures Orient(frame, rows, 16 * cols, both)[r][c] ==
            FramePixel(lanes, laneMap, rows, cols, rows - 1 - r, Mirror(16 * cols, both, c))
  {
  }

  /**
   * The lane sample behind image pixel (r, c): frame row `Rows - 1 - r`,
   * frame column c, counted from the right when both axes are flipped.
   */
  function UhrSample(v: UhrVariant, payload: seq<int>, r: nat, c: nat): (s: int)
    requires AreBytes(payload) && |payload| >= 16 + 24 * Words(v)
    requires r < Rows(v) && c < 16 * LaneCols(v)
    ensures 0 <= s < 4096
  {
    FramePixel(LaneSamples(payload, 16, 24, Words(v)), VariantLaneMap(v), Rows(v), LaneCols(v),
               Rows(v) - 1 - r, Mirror(16 * LaneCols(v), FlipsBothAxes(v), c))
  }

  /**
   * The `descramble` of the ePixUHR family: unpack the words column by
   * column, reorder, flip, fold and mask.
   */
  method Descramble(v: UhrVariant, laneMap: seq<int>, payload: seq<int>, gainMSB: bool, mask: nat) returns (res: Result<Matrix<int>>)
    requires laneMap == VariantLaneMap(v)
    requires AreBytes(payload)
    ensures res == UhrImage(v, payload, gainMSB, mask)
  {
    var words := |laneMap| + 1;
    if |payload| < 16 + 24 * words {
      return Err(ReshapeError);
    }
    var lanes := UnpackLanes(payload, 16, 24, words);
    var frame := FrameReorderLoop(lanes, laneMap, Rows(v), LaneCols(v));
    assert frame == UhrFrame(v, payload);
    var image := Orient(frame, Rows(v), 16 * LaneCols(v), FlipsBothAxes(v));
    assert image == UhrOriented(v, payload);
    res := Ok(Finish(image, HonoursGain(v) && gainMSB, mask));
  }

  // ---------------------------------------------------------------- SparkPix-RT

  /** The 579 six-byte words after the 16-byte header, 4 channels each. */
  const SparkWords: nat := 579

  /**
   * `row_reorder_RT`: channels 3, 2, 1, 0 in that order, each with its first
   * three samples dropped and the rest gathered through the row map.
   */
  function RowReorder(lanes: Matrix<int>, rowMap: seq<int>): (s: seq<int>)
    requires IsMatrix(lanes, 4, SparkWords) && |rowMap| == 576 && IsPermutation(rowMap)
    ensures |s| == 2304
    ensures forall k :: 0 <= k < 2304 ==> s[k] == lanes[3 - k / 576][3 + rowMap[k % 576]]
  {
    seq(2304, k requires 0 <= k < 2304 => lanes[3 - k / 576][3 + rowMap[k % 576]])
  }

  /** Every sample from the fourth on of every channel is used exactly once. */
  lemma RowReorderExactlyOnce(rowMap: seq<int>, ch: nat, s: nat)
    requires |rowMap| == 576 && IsPermutation(rowMap)
    requires ch < 4 && 3 <= s < SparkWords
    ensures exists k :: 0 <= k < 2304 && 3 - k / 576 == ch && 3 + rowMap[k % 576] == s
    ensures forall k1, k2 ::
              (0 <= k1 < 2304 && 0 <= k2 < 2304 && 3 - k1 / 576 == 3 - k2 / 576 && rowMap[k1 % 576] == rowMap[k2 % 576]) ==> k1 == k2
  {
    PermutationCovers(rowMap, s - 3);
    var i :| 0 <= i < 576 && rowMap[i] == s - 3;
    var k := 576 * (3 - ch) + i;
    DivModUnique(k, 576, 3 - ch, i);
    assert 3 - k / 576 == ch && 3 + rowMap[k % 576] == s;
    forall k1, k2 | 0 <= k1 < 2304 && 0 <= k2 < 2304 && 3 - k1 / 576 == 3 - k2 / 576 && rowMap[k1 % 576] == rowMap[k2 % 576]
      ensures k1 == k2
    {
      SamePosition(k1, k2, 576);
    }
  }

  /** The channel loop of `row_reorder_RT`: 576 gathered samples appended per channel. */
  method RowReorderLoop(lanes: Matrix<int>, rowMap: seq<int>) returns (frameMap: seq<int>)
    requires IsMatrix(lanes, 4, SparkWords) && |rowMap| == 576 && IsPermutation(rowMap)
    ensures frameMap == RowReorder(lanes, rowMap)
  {
    ghost var spec := RowReorder(lanes, rowMap);
    frameMap := [];
    var rows := 0;
    while rows < 4
      invariant 0 <= rows <= 4
      invariant frameMap == spec[..576 * rows]
    {
      var frameTmp := Gather(lanes[3 - rows][3..], rowMap);
      forall i | 0 <= i < 576
        ensures spec[576 * rows .. 576 * rows + 576][i] == frameTmp[i]
      {
        DivModUnique(576 * rows + i, 576, rows, i);
      }
      assert spec[..576 * rows + 576] == spec[..576 * rows] + spec[576 * rows .. 576 * rows + 576];
      frameMap := frameMap + frameTmp;
      rows := rows + 1;
    }
  }

  /** The reshaped 48 x 48 frame of a payload long enough for SparkPix-RT, read through row map `rm`. */
  function SparkFrame(payload: seq<int>, rm: seq<int>): (f: Matrix<int>)
    requires AreBytes(payload) && |payload| >= 16 + 6 * SparkWords
    requires |rm| == 576 && IsPermutation(rm)
    ensures IsMatrix(f, 48, 48) && Bounded(f, 4096)
  {
    var lanes := LaneSamples(payload, 16, 6, SparkWords);
    SparkFrameBounded(lanes, rm);
    Reshape(RowReorder(lanes, rm), 48, 48)
  }

  /** The lane sample at cell (r, c) of the reshaped stream: channel 3 - r / 12, sample 3 + rm[48 (r % 12) + c]. */
  function SparkCell(lanes: Matrix<int>, rm: seq<int>, r: nat, c: nat): (s: int)
    requires IsMatrix(lanes, 4, SparkWords) && |rm| == 576 && IsPermutation(rm)
    requires r < 48 && c < 48
    ensures 48 * (r % 12) + c < 576
    ensures s == lanes[3 - r / 12][3 + rm[48 * (r % 12) + c]]
  {
    lanes[3 - r / 12][3 + rm[48 * (r % 12) + c]]
  }

  /** Cell (r, c) of the reshaped stream is the lane sample `SparkCell` names. */
  lemma SparkFrameAt(frame: Matrix<int>, lanes: Matrix<int>, rm: seq<int>, r: nat, c: nat)
    requires IsMatrix(lanes, 4, SparkWords) && |rm| == 576 && IsPermutation(rm)
    requires frame == Reshape(RowReorder(lanes, rm), 48, 48)
    requires r < 48 && c < 48
    ensures frame[r][c] == SparkCell(lanes, rm, r, c)
  {
    SparkStreamIndex(r, c);
    ReshapeAt(RowReorder(lanes, rm), 48, 48, r, c);
  }

  /** Every cell of the reshaped stream is a 12-bit lane sample. */
  lemma SparkFrameBounded(lanes: Matrix<int>, rm: seq<int>)
    requires IsMatrix(lanes, 4, SparkWords) && |rm| == 576 && IsPermutation(rm)
    requires forall l, j :: 0 <= l < 4 && 0 <= j < SparkWords ==> 0 <= lanes[l][j] < 4096
    ensures Bounded(Reshape(RowReorder(lanes, rm), 48, 48), 4096)
  {
    forall r, c | 0 <= r < 48 && 0 <= c < 48
      ensures 0 <= Reshape(RowReorder(lanes, rm), 48, 48)[r][c] < 4096
    {
      SparkFrameAt(Reshape(RowReorder(lanes, rm), 48, 48), lanes, rm, r, c);
    }
  }

  /** Row `r`, column `c` of the 48 x 48 frame is position `48 r + c` of the stream. */
  lemma SparkStreamIndex(r: nat, c: nat)
    requires r < 48 && c < 48
    ensures (r * 48 + c) / 576 == r / 12 && (r * 48 + c) % 576 == 48 * (r % 12) + c
  {
    DivModUnique(r * 48 + c, 576, r / 12, 48 * (r % 12) + c);
  }

  /** The image the SparkPix-RT `descramble` returns, or the reshape failure. */
  function SparkImage(payload: seq<int>, gainMSB: bool, mask: nat): (res: Result<Matrix<int>>)
    requires AreBytes(payload)
    ensures res.Ok? <==> |payload| >= 16 + 6 * SparkWords
    ensures res.Ok? ==> IsMatrix(res.value, 48, 48)
  {
    if |payload| < 16 + 6 * SparkWords then Err(ReshapeError)
    else
      RowMapRTIsPermutation();
      Ok(Finish(Orient(SparkFrame(payload, RowMapRT()), 48, 48, false), gainMSB, mask))
  }

  /**
   * Pixel (r, c) comes from frame row 47 - r: block (47 - r) / 12 of the
   * stream, which is channel 3 - (47 - r) / 12.
   */
  lemma SparkPixel(payload: seq<int>, gainMSB: bool, mask: nat, r: nat, c: nat)
    requires AreBytes(payload) && |payload| >= 16 + 6 * SparkWords
    requires r < 48 && c < 48
    ensures RowMapRT()[48 * ((47 - r) % 12) + c] < 576
    ensures var sample := LaneSamples(payload, 16, 6, SparkWords)[3 - (47 - r) / 12][3 + RowMapRT()[48 * ((47 - r) % 12) + c]];
            SparkImage(payload, gainMSB, mask).value[r][c] == And(if gainMSB then GainFold(sample) else sample, mask)
  {
    RowMapRTIsPermutation();
    SparkOrientedAt(payload, RowMapRT(), r, c);
  }

  /** Pixel (r, c) of the flipped frame is cell (47 - r, c) of the reshaped stream. */
  lemma SparkOrientedAt(payload: seq<int>, rm: seq<int>, r: nat, c: nat)
    requires AreBytes(payload) && |payload| >= 16 + 6 * SparkWords
    requires |rm| == 576 && IsPermutation(rm)
    requires r < 48 && c < 48
    ensures Orient(SparkFrame(payload, rm), 48, 48, false)[r][c] == SparkCell(LaneSamples(payload, 16, 6, SparkWords), rm, 47 - r, c)
  {
    SparkFrameAt(SparkFrame(payload, rm), LaneSamples(payload, 16, 6, SparkWords), rm, 47 - r, c);
  }

  /** The SparkPix-RT `descramble`. */
  method SparkDescramble(rowMap: seq<int>, payload: seq<int>, gainMSB: bool, mask: nat) returns (res: Result<Matrix<int>>)
    requires rowMap == RowMapRT()
    requires AreBytes(payload)
    ensures res == SparkImage(payload, gainMSB, mask)
  {
    if |payload| < 16 + 6 * SparkWords {
      return Err(ReshapeError);
    }
    var lanes := UnpackLanes(payload, 16, 6, SparkWords);
    RowMapRTIsPermutation();
    var frameMap := RowReorderLoop(lanes, rowMap);
    var frame := Reshape(frameMap, 48, 48);
    assert frame == SparkFrame(payload, rowMap);
    var image := Orient(frame, 48, 48, false);
    res := Ok(Finish(image, gainMSB, mask));
  }
}
