/**
 * The descramblers that assemble an image from whole sub-frames or from a
 * flat run of 16-bit words, with no bit unpacking and no lane map: the
 * Tixel 48x48 and Cpix2 quadrant tiling (with Tixel's odd-LSB filter), the
 * ePixM32 and ADC 32x32 side-by-side halves, and the cryo64xN channel split
 * with its transposed ePixHrEpixM sibling.
 */
module Subframes {
  import opened Common
  import opened Bits

  /** A `uint16` element. */
  type Word = w: int | 0 <= w < 0x1_0000

  /** Every sub-frame carries this many leading elements before its pixels. */
  const Lead: nat := 4

  // ---------------------------------------------------------------- tiles

  /** `np.frombuffer(frame[k, 4:]).reshape(rows, cols)`: sub-frame `k` without its leading elements. */
  function Tile(frame: seq<seq<Word>>, k: nat, rows: nat, cols: nat): (m: Matrix<Word>)
    requires k < |frame| && |frame[k]| == Lead + rows * cols
    ensures IsMatrix(m, rows, cols)
  {
    Reshape(frame[k][Lead..], rows, cols)
  }

  /** Pixel (r, c) of tile `k` is element 4 + cols r + c of sub-frame `k`. */
  lemma TileAt(frame: seq<seq<Word>>, k: nat, rows: nat, cols: nat, r: nat, c: nat)
    requires k < |frame| && |frame[k]| == Lead + rows * cols
    requires r < rows && c < cols
    ensures r * cols + c < rows * cols
    ensures Tile(frame, k, rows, cols)[r][c] == frame[k][Lead + r * cols + c]
  {
    ReshapeAt(frame[k][Lead..], rows, cols, r, c);
  }

  /** The first `n` sub-frames each hold exactly `size` pixels after the leading elements. */
  predicate SubframesSized(frame: seq<seq<Word>>, n: nat, size: nat)
    requires n <= |frame|
  {
    forall k :: 0 <= k < n ==> |frame[k]| == Lead + size
  }

  // ---------------------------------------------------------------- four quadrants

  /** The four 48 x 48 quadrant tiles, one per sub-frame. */
  function QuadrantTiles(frame: seq<seq<Word>>): (q: seq<Matrix<Word>>)
    requires |frame| == 4 && SubframesSized(frame, 4, 48 * 48)
    ensures |q| == 4 && forall k :: 0 <= k < 4 ==> q[k] == Tile(frame, k, 48, 48)
  {
    seq(4, k requires 0 <= k < 4 => Tile(frame, k, 48, 48))
  }

  /** `concatenate((concatenate((q0, q1), 1), concatenate((q2, q3), 1)), 0)`: tiles 0 | 1 on top of 2 | 3. */
  function Stack<T>(q: seq<Matrix<T>>): (m: Matrix<T>)
    requires |q| == 4 && |q[0]| == |q[1]| && |q[2]| == |q[3]|
  {
    SideBySide(q[0], q[1]) + SideBySide(q[2], q[3])
  }

  /** The quadrant assembly of four sub-frames. */
  function Quadrants(frame: seq<seq<Word>>): (m: Matrix<int>)
    requires |frame| == 4 && SubframesSized(frame, 4, 48 * 48)
    ensures IsMatrix(m, 96, 96)
  {
    Stack(QuadrantTiles(frame))
  }

  /** The sub-frame and element that pixel (R, C) of the 96 x 96 assembly comes from. */
  function QuadrantSource(R: nat, C: nat): (src: (nat, nat))
    requires R < 96 && C < 96
    ensures src.0 < 4 && Lead <= src.1 < Lead + 48 * 48
  {
    CellIndex(R % 48, C % 48, 48, 48);
    (2 * (R / 48) + C / 48, Lead + 48 * (R % 48) + C % 48)
  }

  /** Cell (r, col) of tile (i, j) of four 48 x 48 tiles stacked two by two sits at (48 i + r, 48 j + col). */
  lemma StackedCell<T>(q: seq<Matrix<T>>, i: nat, j: nat, r: nat, col: nat)
    requires |q| == 4 && IsMatrix(q[0], 48, 48) && IsMatrix(q[1], 48, 48) && IsMatrix(q[2], 48, 48) && IsMatrix(q[3], 48, 48)
    requires i < 2 && j < 2 && r < 48 && col < 48
    ensures Stack(q)[48 * i + r][48 * j + col] == q[2 * i + j][r][col]
  {
    var top, bottom := SideBySide(q[0], q[1]), SideBySide(q[2], q[3]);
    if i == 0 {
      assert Stack(q)[r] == q[0][r] + q[1][r];
    } else {
      assert Stack(q)[48 + r] == q[2][r] + q[3][r];
    }
  }

  /** Cell (r, c) of quadrant (i, j) sits at (48 i + r, 48 j + c) of the assembly. */
  lemma QuadrantCell(frame: seq<seq<Word>>, i: nat, j: nat, r: nat, c: nat)
    requires |frame| == 4 && SubframesSized(frame, 4, 48 * 48)
    requires i < 2 && j < 2 && r < 48 && c < 48
    ensures r * 48 + c < 48 * 48
    ensures Quadrants(frame)[48 * i + r][48 * j + c] == frame[2 * i + j][Lead + r * 48 + c]
  {
    StackedCell(QuadrantTiles(frame), i, j, r, c);
    TileAt(frame, 2 * i + j, 48, 48, r, c);
  }

  /** Pixel (R, C) of the assembly is the element `QuadrantSource` names. */
  lemma QuadrantsAt(frame: seq<seq<Word>>, R: nat, C: nat)
    requires |frame| == 4 && SubframesSized(frame, 4, 48 * 48)
    requires R < 96 && C < 96
    ensures Quadrants(frame)[R][C] == frame[QuadrantSource(R, C).0][QuadrantSource(R, C).1]
  {
    HalfOf96(R);
    HalfOf96(C);
    QuadrantCell(frame, R / 48, C / 48, R % 48, C % 48);
  }

  /** An index below 96 is half 0 or 1 of 48 and an offset in it. */
  lemma HalfOf96(R: nat)
    requires R < 96
    ensures R / 48 < 2 && R == 48 * (R / 48) + R % 48 && R % 48 < 48
  {
    if R < 48 {
      DivModUnique(R, 48, 0, R);
    } else {
      DivModUnique(R, 48, 1, R - 48);
    }
  }

  /** No two pixels read the same element. */
  lemma QuadrantSourceInjective(R1: nat, C1: nat, R2: nat, C2: nat)
    requires R1 < 96 && C1 < 96 && R2 < 96 && C2 < 96
    requires QuadrantSource(R1, C1) == QuadrantSource(R2, C2)
    ensures R1 == R2 && C1 == C2
  {
    DivModUnique(48 * (R1 % 48) + C1 % 48, 48, R1 % 48, C1 % 48);
    DivModUnique(48 * (R2 % 48) + C2 % 48, 48, R2 % 48, C2 % 48);
    DivModUnique(2 * (R1 / 48) + C1 / 48, 2, R1 / 48, C1 / 48);
    DivModUnique(2 * (R2 / 48) + C2 / 48, 2, R2 / 48, C2 / 48);
    SplitBack(R1, 48);
    SplitBack(R2, 48);
    SplitBack(C1, 48);
    SplitBack(C2, 48);
  }

  /** Every pixel element of the four sub-frames is read by some pixel. */
  lemma QuadrantSourceCovers(k: nat, i: nat)
    requires k < 4 && Lead <= i < Lead + 48 * 48
    ensures exists R, C :: 0 <= R < 96 && 0 <= C < 96 && QuadrantSource(R, C) == (k, i)
  {
    var p := i - Lead;
    var r, c := p / 48, p % 48;
    SplitBack(p, 48);
    var R, C := 48 * (k / 2) + r, 48 * (k % 2) + c;
    DivModUnique(R, 48, k / 2, r);
    DivModUnique(C, 48, k % 2, c);
    assert QuadrantSource(R, C) == (k, i);
  }

  /** A position is its quotient and remainder put back together. */
  lemma SplitBack(a: nat, d: nat)
    requires d > 0
    ensures a == d * (a / d) + a % d && 0 <= a % d < d
  {
  }

  /** `where((v & 0x1) == 1, v, 0)`: Tixel keeps a pixel only when its lowest bit is set (pixels are never negative). */
  function OddOnly(v: int): int
  {
    if v >= 0 && And(v, 1) == 1 then v else 0
  }

  /** The filter keeps exactly the odd values and zeroes the even ones. */
  lemma OddOnlyKeepsOdd(v: Word)
    ensures OddOnly(v) == (if v % 2 == 1 then v else 0)
  {
    AndLowMask(v, 1);
    assert Pow2(1) == 2;
  }

  /**
   * The Tixel 48x48 `descramble`: four sub-frames tiled 2 x 2, or a 96 x 96
   * zero image for any other number of sub-frames, then the odd-LSB filter.
   * A sub-frame of the wrong size makes the reshape fail.
   */
  function TixelImage(frame: seq<seq<Word>>): (res: Result<Matrix<int>>)
    ensures res.Err? <==> |frame| == 4 && !SubframesSized(frame, 4, 48 * 48)
    ensures res.Ok? ==> IsMatrix(res.value, 96, 96)
  {
    if |frame| != 4 then Ok(MapCells(Zeros(96, 96), OddOnly))
    else if !SubframesSized(frame, 4, 48 * 48) then Err(ReshapeError)
    else Ok(MapCells(Quadrants(frame), OddOnly))
  }

  /** A Tixel pixel is its quadrant element when that is odd, and 0 otherwise; a wrong sub-frame count gives zeros. */
  lemma TixelPixel(frame: seq<seq<Word>>, R: nat, C: nat)
    requires R < 96 && C < 96
    requires |frame| != 4 || SubframesSized(frame, 4, 48 * 48)
    ensures TixelImage(frame).Ok?
    ensures |frame| != 4 ==> TixelImage(frame).value[R][C] == 0
    ensures |frame| == 4 ==>
              var v := frame[QuadrantSource(R, C).0][QuadrantSource(R, C).1];
              TixelImage(frame).value[R][C] == if v % 2 == 1 then v else 0
  {
    if |frame| == 4 {
      QuadrantsAt(frame, R, C);
      OddOnlyKeepsOdd(frame[QuadrantSource(R, C).0][QuadrantSource(R, C).1]);
    } else {
      OddOnlyKeepsOdd(0);
    }
  }

  /** The Cpix2 `descramble`: the Tixel tiling without the filter. */
  function Cpix2Image(frame: seq<seq<Word>>): (res: Result<Matrix<int>>)
    ensures res.Err? <==> |frame| == 4 && !SubframesSized(frame, 4, 48 * 48)
    ensures res.Ok? ==> IsMatrix(res.value, 96, 96)
  {
    if |frame| != 4 then Ok(Zeros(96, 96))
    else if !SubframesSized(frame, 4, 48 * 48) then Err(ReshapeError)
    else Ok(Quadrants(frame))
  }

  // ---------------------------------------------------------------- two halves

  /** `concatenate((q0, q1), 1)`: sub-frame 0 as the left rows x cols half, sub-frame 1 as the right. */
  function Halves(frame: seq<seq<Word>>, rows: nat, cols: nat): (m: Matrix<int>)
    requires |frame| == 2 && SubframesSized(frame, 2, rows * cols)
    ensures IsMatrix(m, rows, 2 * cols)
  {
    SideBySide(Tile(frame, 0, rows, cols), Tile(frame, 1, rows, cols))
  }

  /** Pixel (r, c) of half `h` sits at (r, h cols + c): element 4 + cols r + c of sub-frame `h`. */
  lemma HalvesAt(frame: seq<seq<Word>>, rows: nat, cols: nat, h: nat, r: nat, c: nat)
    requires |frame| == 2 && SubframesSized(frame, 2, rows * cols)
    requires h < 2 && r < rows && c < cols
    ensures h * cols + c < 2 * cols && r * cols + c < rows * cols
    ensures Halves(frame, rows, cols)[r][h * cols + c] == frame[h][Lead + r * cols + c]
  {
    var left, right := Tile(frame, 0, rows, cols), Tile(frame, 1, rows, cols);
    assert Halves(frame, rows, cols)[r] == left[r] + right[r];
    TileAt(frame, h, rows, cols, r, c);
  }

  /** The two-sub-frame `descramble` of a `rows x 2 cols` sensor: the halves, or zeros for any other sub-frame count. */
  function HalvesImage(frame: seq<seq<Word>>, rows: nat, cols: nat): (res: Result<Matrix<int>>)
    ensures res.Err? <==> |frame| == 2 && !SubframesSized(frame, 2, rows * cols)
    ensures res.Ok? ==> IsMatrix(res.value, rows, 2 * cols)
  {
    if |frame| != 2 then Ok(Zeros(rows, 2 * cols))
    else if !SubframesSized(frame, 2, rows * cols) then Err(ReshapeError)
    else Ok(Halves(frame, rows, cols))
  }

  /** ePixM32: two 64 x 32 halves, 64 x 64 on both paths. */
  function M32Image(frame: seq<seq<Word>>): (res: Result<Matrix<int>>)
    ensures res.Ok? ==> IsMatrix(res.value, 64, 64)
    ensures |frame| != 2 ==> res == Ok(Zeros(64, 64))
  {
    HalvesImage(frame, 64, 32)
  }

  /** ADC 32x32: two 32 x 32 halves, 32 x 64 on both paths. */
  function Adc32Image(frame: seq<seq<Word>>): (res: Result<Matrix<int>>)
    ensures res.Ok? ==> IsMatrix(res.value, 32, 64)
    ensures |frame| != 2 ==> res == Ok(Zeros(32, 64))
  {
    HalvesImage(frame, 32, 32)
  }

  // ---------------------------------------------------------------- cryo64xN

  /** `np.frombuffer(frame, dtype='uint16')` (or `.view(np.uint16)`): little-endian byte pairs, failing on an odd length. */
  function Words16(bytes: seq<Byte>): (res: Result<seq<Word>>)
    ensures res.Err? <==> |bytes| % 2 == 1
    ensures res.Ok? ==> |res.value| == |bytes| / 2
    ensures res.Ok? ==> forall i :: 0 <= i < |res.value| ==> res.value[i] == (bytes[2 * i] as int) + 256 * (bytes[2 * i + 1] as int)
  {
    if |bytes| % 2 == 1 then Err(ReshapeError)
    else Ok(seq(|bytes| / 2, i requires 0 <= i < |bytes| / 2 => ((bytes[2 * i] as int) + 256 * (bytes[2 * i + 1] as int)) as Word))
  }

  /** `(n - 6) / 64` is a whole number: the word count is 6 header words plus whole 64-channel samples. */
  predicate WholeSamples(n: nat)
  {
    n >= 6 && (n - 6) % 64 == 0
  }

  /** `img2[:, first:64:2]`: every other channel starting at `first`, one row per sample. */
  function ChannelColumns(img2: Matrix<Word>, samples: nat, first: nat): (m: Matrix<Word>)
    requires IsMatrix(img2, samples, 64) && first < 2
    ensures IsMatrix(m, samples, 32)
  {
    seq(samples, t requires 0 <= t < samples => seq(32, j requires 0 <= j < 32 => img2[t][first + 2 * j]))
  }

  /** `m.transpose()`. */
  function Transpose<T>(m: Matrix<T>, rows: nat, cols: nat): (t: Matrix<T>)
    requires IsMatrix(m, rows, cols)
    ensures IsMatrix(t, cols, rows)
    ensures forall i, j :: 0 <= i < cols && 0 <= j < rows ==> t[i][j] == m[j][i]
  {
    seq(cols, i requires 0 <= i < cols => seq(rows, j requires 0 <= j < rows => m[j][i]))
  }

  /**
   * The cryo64xN channel split: after 6 header words the samples are rows of
   * 64 channels; the even channels transposed, then the odd ones, flattened
   * together and reshaped to 64 x samples.  A word count that is not 6 plus
   * whole samples gives a 64 x 64 zero image.
   */
  function CryoImage(img: seq<Word>): (m: Matrix<int>)
    ensures WholeSamples(|img|) ==> IsMatrix(m, 64, (|img| - 6) / 64)
    ensures !WholeSamples(|img|) ==> m == Zeros(64, 64)
  {
    if !WholeSamples(|img|) then Zeros(64, 64)
    else
      var samples := (|img| - 6) / 64;
      Reshape(ChannelSplit(Reshape(img[6..], samples, 64), samples), 64, samples)
  }

  /** `np.append(img2[:, 0:64:2].T, img2[:, 1:64:2].T)`: the even channels sample by sample, then the odd ones. */
  function ChannelSplit(img2: Matrix<Word>, samples: nat): (s: seq<Word>)
    requires IsMatrix(img2, samples, 64)
    ensures |s| == 64 * samples
  {
    var even := Transpose(ChannelColumns(img2, samples, 0), samples, 32);
    var odd := Transpose(ChannelColumns(img2, samples, 1), samples, 32);
    FlattenLength(even, 32, samples);
    FlattenLength(odd, 32, samples);
    Flatten(even) + Flatten(odd)
  }

  /** Element r samples + t of the split is channel `Channel(r)` of sample `t`. */
  lemma ChannelSplitAt(img2: Matrix<Word>, samples: nat, r: nat, t: nat)
    requires IsMatrix(img2, samples, 64) && r < 64 && t < samples
    ensures r * samples + t < 64 * samples
    ensures ChannelSplit(img2, samples)[r * samples + t] == img2[t][Channel(r)]
  {
    var even := Transpose(ChannelColumns(img2, samples, 0), samples, 32);
    var odd := Transpose(ChannelColumns(img2, samples, 1), samples, 32);
    FlattenLength(even, 32, samples);
    CellIndex(r, t, 64, samples);
    if r < 32 {
      FlattenAt(even, 32, samples, r, t);
    } else {
      FlattenAt(odd, 32, samples, r - 32, t);
      assert r * samples + t == 32 * samples + ((r - 32) * samples + t);
    }
  }

  /** The channel that row `r` of the split holds: 2r for the top 32 rows, 2(r - 32) + 1 below. */
  function Channel(r: nat): (ch: nat)
    requires r < 64
    ensures ch < 64
  {
    if r < 32 then 2 * r else 2 * (r - 32) + 1
  }

  /** Pixel (r, t) of the split is channel `Channel(r)` of sample `t`: word 6 + 64 t + Channel(r). */
  lemma CryoPixel(img: seq<Word>, r: nat, t: nat)
    requires WholeSamples(|img|) && r < 64 && t < (|img| - 6) / 64
    ensures 6 + 64 * t + Channel(r) < |img|
    ensures CryoImage(img)[r][t] == img[6 + 64 * t + Channel(r)]
  {
    var samples := (|img| - 6) / 64;
    var img2 := Reshape(img[6..], samples, 64);
    ReshapeAt(ChannelSplit(img2, samples), 64, samples, r, t);
    ChannelSplitAt(img2, samples, r, t);
    ReshapeAt(img[6..], samples, 64, t, Channel(r));
  }

  /** Where pixel (r, t) of the split reads. */
  function CryoSource(r: nat, t: nat): nat
    requires r < 64
  {
    6 + 64 * t + Channel(r)
  }

  /** No two pixels of the split read the same word. */
  lemma CryoSourceInjective(r1: nat, t1: nat, r2: nat, t2: nat)
    requires r1 < 64 && r2 < 64
    requires CryoSource(r1, t1) == CryoSource(r2, t2)
    ensures r1 == r2 && t1 == t2
  {
    DivModUnique(64 * t1 + Channel(r1), 64, t1, Channel(r1));
    DivModUnique(64 * t2 + Channel(r2), 64, t2, Channel(r2));
  }

  /** Every word after the header is read by some pixel of the split. */
  lemma CryoSourceCovers(n: nat, i: nat)
    requires WholeSamples(n) && 6 <= i < n
    ensures exists r, t :: 0 <= r < 64 && 0 <= t < (n - 6) / 64 && CryoSource(r, t) == i
  {
    var p := i - 6;
    var t, ch := p / 64, p % 64;
    SplitBack(p, 64);
    DivModUnique(n - 6, 64, (n - 6) / 64, 0);
    QuotientBelow(p, 64, (n - 6) / 64);
    var r := if ch % 2 == 0 then ch / 2 else 32 + ch / 2;
    assert Channel(r) == ch;
    assert CryoSource(r, t) == i;
  }

  /** The cryo64xN `descramble` on the raw byte payload (both copies). */
  function CryoDescramble(bytes: seq<Byte>): (res: Result<Matrix<int>>)
    ensures res.Err? <==> |bytes| % 2 == 1
  {
    match Words16(bytes)
    case Err(f) => Err(f)
    case Ok(img) => Ok(CryoImage(img))
  }

  /**
   * The ePixHrEpixM `descramble`: the cryo64xN split transposed to samples x
   * 64, except that the zero image of a bad word count is returned as is.
   */
  function EpixMDescramble(bytes: seq<Byte>): (res: Result<Matrix<int>>)
    ensures res.Err? <==> |bytes| % 2 == 1
  {
    match Words16(bytes)
    case Err(f) => Err(f)
    case Ok(img) =>
      if !WholeSamples(|img|) then Ok(Zeros(64, 64))
      else Ok(Transpose(CryoImage(img), 64, (|img| - 6) / 64))
  }

  /** ePixHrEpixM pixel (t, c) is cryo64xN pixel (c, t): sample `t`, channel `Channel(c)`. */
  lemma EpixMPixel(bytes: seq<Byte>, t: nat, c: nat)
    requires |bytes| % 2 == 0 && WholeSamples(|bytes| / 2)
    requires t < (|bytes| / 2 - 6) / 64 && c < 64
    ensures EpixMDescramble(bytes).Ok? && CryoDescramble(bytes).Ok?
    ensures EpixMDescramble(bytes).value[t][c] == CryoDescramble(bytes).value[c][t] == Words16(bytes).value[CryoSource(c, t)]
  {
    CryoPixel(Words16(bytes).value, c, t);
  }
}
