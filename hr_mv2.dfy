/**
 * ePixHR-Mv2 descrambling, in the two versions the repository carries.
 *
 * The 192 x 384 frame is made of 24 banks of 48 x 64 pixels, read out
 * interleaved: word `k` after the 24-word header belongs to bank `k % 24`.
 * Both receivers rebuild, once, a pair of tables that send every read-out
 * position to its place in the frame, and then descramble each frame with a
 * single scatter through those tables followed by the pixel mask.
 *
 * The current receiver orders each bank by the bank-index formula and works
 * around a firmware bug that swaps the first and last row of every
 * quadrant; the older receiver, kept beside the analysis code, reads each
 * bank row by row and de-interleaves even and odd rows and columns.
 */
module HrMv2 {
  import opened Common
  import opened Bits

  /** Words in an ePixHR-Mv2 frame: the 24-word header and one word per pixel. */
  const FrameWords: nat := 73752
  const Pixels: nat := 73728

  // ---------------------------------------------------------------- banks and quadrants

  datatype BankPixel = BankPixel(bank: nat, row: nat, col: nat)

  predicate InBank(p: BankPixel)
  {
    p.bank < 24 && p.row < 48 && p.col < 64
  }

  /**
   * Where pixel (row, col) of `bank` sits in the read-out stream: odd
   * columns first, two columns per 32-word step, one word per bank.
   */
  function BankIndex(p: BankPixel): (k: nat)
    requires InBank(p)
    ensures k < Pixels
  {
    (((p.col + 1) % 2) * 1536 + 32 * p.row + p.col / 2) * 24 + p.bank
  }

  /** The bank pixel that read-out word `k` carries. */
  function BankPixelOf(k: nat): (p: BankPixel)
    requires k < Pixels
    ensures InBank(p)
  {
    var q := k / 24;
    var rest := q % 1536;
    BankPixel(k % 24, rest / 32, 2 * (rest % 32) + 1 - q / 1536)
  }

  /** The bank-index formula is a bijection between bank pixels and the words 0 .. 73727. */
  lemma BankIndexInverse(p: BankPixel, k: nat)
    requires InBank(p) && k < Pixels
    ensures BankPixelOf(BankIndex(p)) == p
    ensures BankIndex(BankPixelOf(k)) == k
  {
    BankPixelOfIndex(p);
    IndexOfBankPixel(k);
  }

  lemma BankPixelOfIndex(p: BankPixel)
    requires InBank(p)
    ensures BankPixelOf(BankIndex(p)) == p
  {
    var parity := (p.col + 1) % 2;
    var rest := 32 * p.row + p.col / 2;
    var q := parity * 1536 + rest;
    assert BankIndex(p) == 24 * q + p.bank;
    DivModUnique(BankIndex(p), 24, q, p.bank);
    DivModUnique(q, 1536, parity, rest);
    DivModUnique(rest, 32, p.row, p.col / 2);
  }

  lemma IndexOfBankPixel(k: nat)
    requires k < Pixels
    ensures BankIndex(BankPixelOf(k)) == k
  {
    var q := k / 24;
    var rest := q % 1536;
    var parity, half := q / 1536, rest % 32;
    assert k == 24 * q + k % 24;
    assert q == 1536 * parity + rest;
    assert rest == 32 * (rest / 32) + half;
    var p := BankPixelOf(k);
    assert p.col == 2 * half + 1 - parity;
    assert (p.col + 1) % 2 == parity && p.col / 2 == half;
  }

  /** Reassembled position (R, C) lies in bank 4 (C / 64) + R / 48 (quadrant R / 48). */
  function QuadrantBank(R: nat, C: nat): (p: BankPixel)
    requires R < 192 && C < 384
    ensures InBank(p)
  {
    BankPixel(4 * (C / 64) + R / 48, R % 48, C % 64)
  }

  /** Where a bank pixel lands once quadrant `i` is banks i, i+4, ..., i+20 side by side. */
  function QuadrantPosition(p: BankPixel): (rc: (nat, nat))
    requires InBank(p)
    ensures rc.0 < 192 && rc.1 < 384
  {
    (48 * (p.bank % 4) + p.row, 64 * (p.bank / 4) + p.col)
  }

  lemma QuadrantInverse(R: nat, C: nat, p: BankPixel)
    requires R < 192 && C < 384 && InBank(p)
    ensures QuadrantPosition(QuadrantBank(R, C)) == (R, C)
    ensures QuadrantBank(QuadrantPosition(p).0, QuadrantPosition(p).1) == p
  {
    var b := 4 * (C / 64) + R / 48;
    DivModUnique(b, 4, C / 64, R / 48);
    var rc := QuadrantPosition(p);
    DivModUnique(rc.0, 48, p.bank % 4, p.row);
    DivModUnique(rc.1, 64, p.bank / 4, p.col);
  }

  /** 24 banks of 48 x 64 pixels. */
  ghost predicate BankShape<T>(banks: seq<Matrix<T>>)
  {
    |banks| == 24 && forall b :: 0 <= b < 24 ==> IsMatrix(banks[b], 48, 64)
  }

  /** Row r of quadrant i: row r of banks i, i+4, ..., i+20 concatenated left to right. */
  function QuadrantRow<T>(banks: seq<Matrix<T>>, i: nat, r: nat): (row: seq<T>)
    requires BankShape(banks) && i < 4 && r < 48
    ensures |row| == 384
  {
    FlattenLength(seq(6, t requires 0 <= t < 6 => banks[i + 4 * t][r]), 6, 64);
    Flatten(seq(6, t requires 0 <= t < 6 => banks[i + 4 * t][r]))
  }

  /** Column C of a quadrant row comes from bank i + 4 (C / 64), column C % 64. */
  lemma QuadrantRowAt<T>(banks: seq<Matrix<T>>, i: nat, r: nat, C: nat)
    requires BankShape(banks) && i < 4 && r < 48 && C < 384
    ensures QuadrantRow(banks, i, r)[C] == banks[i + 4 * (C / 64)][r][C % 64]
  {
    FlattenAt(seq(6, t requires 0 <= t < 6 => banks[i + 4 * t][r]), 6, 64, C / 64, C % 64);
  }

  /**
   * The 24 banks laid out as the receivers do it: quadrant i is banks
   * i, i+4, ..., i+20 side by side, and quadrants 0 .. 3 are stacked top to
   * bottom, so frame row R is row R % 48 of quadrant R / 48.
   */
  function Reassemble<T>(banks: seq<Matrix<T>>): (m: Matrix<T>)
    requires BankShape(banks)
    ensures IsMatrix(m, 192, 384)
  {
    seq(192, R requires 0 <= R < 192 => QuadrantRow(banks, R / 48, R % 48))
  }

  /** Frame position (R, C) holds pixel (R % 48, C % 64) of bank `QuadrantBank(R, C)`. */
  lemma ReassembleAt<T>(banks: seq<Matrix<T>>, R: nat, C: nat)
    requires BankShape(banks) && R < 192 && C < 384
    ensures Reassemble(banks)[R][C] == banks[QuadrantBank(R, C).bank][R % 48][C % 64]
  {
    QuadrantRowAt(banks, R / 48, R % 48, C);
  }

  // ---------------------------------------------------------------- the current receiver

  /** Bank `b` of `descarambledImg`: every pixel holds its bank index. */
  function BankImage(b: nat): (m: Matrix<int>)
    requires b < 24
    ensures IsMatrix(m, 48, 64)
  {
    seq(48, r requires 0 <= r < 48 => seq(64, c requires 0 <= c < 64 => BankIndex(BankPixel(b, r, c))))
  }

  /** `descarambledImg` after the quadrant reorder: the read-out word of every frame position. */
  function IndexImage(): (m: Matrix<int>)
    ensures IsMatrix(m, 192, 384)
    ensures forall R, C :: 0 <= R < 192 && 0 <= C < 384 ==> m[R][C] == BankIndex(QuadrantBank(R, C))
  {
    var banks := seq(24, b requires 0 <= b < 24 => BankImage(b));
    forall R, C | 0 <= R < 192 && 0 <= C < 384
      ensures Reassemble(banks)[R][C] == BankIndex(QuadrantBank(R, C))
    {
      ReassembleAt(banks, R, C);
    }
    Reassemble(banks)
  }

  /** The frame position read-out word `k` is reassembled to (before the row fix). */
  function WordPosition(k: nat): (rc: (nat, nat))
    requires k < Pixels
    ensures rc.0 < 192 && rc.1 < 384
  {
    QuadrantPosition(BankPixelOf(k))
  }

  /** Every frame position holds exactly one read-out word, and every word has exactly one position. */
  lemma IndexImageBijective(R: nat, C: nat, k: nat)
    requires R < 192 && C < 384 && k < Pixels
    ensures WordPosition(IndexImage()[R][C]) == (R, C)
    ensures var rc := WordPosition(k); IndexImage()[rc.0][rc.1] == k
  {
    var p := QuadrantBank(R, C);
    BankIndexInverse(p, k);
    QuadrantInverse(R, C, BankPixelOf(k));
  }

  /**
   * `hardwareBugWorkAroundRowLUT`: the identity, except that the first and
   * last row of every 48-row quadrant are exchanged.
   */
  function RowLut(R: nat): nat
  {
    if R == 0 then 47 else if R == 47 then 0
    else if R == 48 then 95 else if R == 95 then 48
    else if R == 96 then 143 else if R == 143 then 96
    else if R == 144 then 191 else if R == 191 then 144
    else R
  }

  /** The row fix is an involution on the frame rows and never leaves a quadrant. */
  lemma RowLutInvolution(R: nat)
    requires R < 192
    ensures RowLut(R) < 192 && RowLut(RowLut(R)) == R
    ensures RowLut(R) / 48 == R / 48
    ensures R % 48 != 0 && R % 48 != 47 ==> RowLut(R) == R
  {
  }

  /** The loop that fills the row lookup table, then the eight swaps. */
  method BuildRowLut() returns (lut: array<int>)
    ensures fresh(lut) && lut.Length == 192
    ensures forall R :: 0 <= R < 192 ==> lut[R] == RowLut(R)
  {
    lut := new int[192];
    var index := 0;
    while index < 192
      invariant 0 <= index <= 192
      invariant forall R :: 0 <= R < index ==> lut[R] == R
    {
      lut[index] := index;
      index := index + 1;
    }
    lut[0] := 47;
    lut[47] := 0;
    lut[48] := 95;
    lut[95] := 48;
    lut[96] := 143;
    lut[143] := 96;
    lut[144] := 191;
    lut[191] := 144;
  }

  /** The row word `k` is written to: its reassembled row, through the row fix. */
  function LookupRow(k: nat): (R: nat)
    requires k < Pixels
    ensures R < 192
  {
    RowLutInvolution(WordPosition(k).0);
    RowLut(WordPosition(k).0)
  }

  function LookupCol(k: nat): (C: nat)
    requires k < Pixels
    ensures C < 384
  {
    WordPosition(k).1
  }

  /** The read-out word that lands at (R, C): the inverse of the lookup tables. */
  function WordAt(R: nat, C: nat): (k: nat)
    requires R < 192 && C < 384
    ensures k < Pixels
  {
    RowLutInvolution(R);
    BankIndex(QuadrantBank(RowLut(R), C))
  }

  /** The lookup tables and `WordAt` are inverse: every word lands once and every pixel is written once. */
  lemma LookupInverse(R: nat, C: nat, k: nat)
    requires R < 192 && C < 384 && k < Pixels
    ensures LookupRow(WordAt(R, C)) == R && LookupCol(WordAt(R, C)) == C
    ensures WordAt(LookupRow(k), LookupCol(k)) == k
  {
    RowLutInvolution(R);
    IndexImageBijective(RowLut(R), C, k);
    var rc := WordPosition(k);
    RowLutInvolution(rc.0);
  }

  /** `lookupTableRow` and `lookupTableCol` after the reshape to 192 x 384. */
  function LookupRowTable(): (t: Matrix<int>)
    ensures IsMatrix(t, 192, 384)
  {
    Reshape(seq(Pixels, k requires 0 <= k < Pixels => LookupRow(k)), 192, 384)
  }

  function LookupColTable(): (t: Matrix<int>)
    ensures IsMatrix(t, 192, 384)
  {
    Reshape(seq(Pixels, k requires 0 <= k < Pixels => LookupCol(k)), 192, 384)
  }

  /**
   * The image the current receiver returns: word `WordAt(R, C)` of the
   * payload, masked, at every pixel of a 73752-word frame, and a zero image
   * for any other length.
   */
  function Mv2Image(raw: seq<nat>, mask: nat): (img: Matrix<int>)
    ensures IsMatrix(img, 192, 384)
    ensures |raw| != FrameWords ==> forall R, C :: 0 <= R < 192 && 0 <= C < 384 ==> img[R][C] == 0
  {
    if |raw| == FrameWords then seq(192, R requires 0 <= R < 192 => Mv2Row(raw, mask, R))
    else Zeros(192, 384)
  }

  /** Row R of `Mv2Image` for a full frame. */
  function Mv2Row(raw: seq<nat>, mask: nat, R: nat): (row: seq<int>)
    requires |raw| == FrameWords && R < 192
    ensures |row| == 384
  {
    seq(384, C requires 0 <= C < 384 => Mv2Pixel(raw, mask, R, C))
  }

  /** Pixel (R, C) of `Mv2Image` for a full frame: the masked word the tables send there. */
  function Mv2Pixel(raw: seq<nat>, mask: nat, R: nat, C: nat): nat
    requires |raw| == FrameWords && R < 192 && C < 384
  {
    And(raw[24 + WordAt(R, C)], mask)
  }

  /** Read-out word `k` of a full frame lands at its looked-up position, masked. */
  lemma Mv2Placement(raw: seq<nat>, mask: nat, k: nat)
    requires |raw| == FrameWords && k < Pixels
    ensures Mv2Image(raw, mask)[LookupRow(k)][LookupCol(k)] == And(raw[24 + k], mask)
  {
    var R, C := LookupRow(k), LookupCol(k);
    LookupInverse(R, C, k);
    Mv2ImageAt(raw, mask, R, C, k);
  }

  /** Pixel (R, C) of a full frame's image is the masked word `k` that the tables send there. */
  lemma Mv2ImageAt(raw: seq<nat>, mask: nat, R: nat, C: nat, k: nat)
    requires |raw| == FrameWords && R < 192 && C < 384 && k < Pixels
    requires WordAt(R, C) == k
    ensures Mv2Image(raw, mask)[R][C] == And(raw[24 + k], mask)
  {
    assert Mv2Image(raw, mask)[R] == Mv2Row(raw, mask, R);
  }

  /** Entry (k / 384, k % 384) of the reshaped lookup tables is entry `k` of the flat ones. */
  lemma LookupTableAt(k: nat)
    requires k < Pixels
    ensures k / 384 < 192 && k % 384 < 384 && k == 384 * (k / 384) + k % 384
    ensures LookupRowTable()[k / 384][k % 384] == LookupRow(k)
    ensures LookupColTable()[k / 384][k % 384] == LookupCol(k)
  {
    var R, C := k / 384, k % 384;
    assert k == 384 * R + C;
    ReshapeAt(seq(Pixels, k requires 0 <= k < Pixels => LookupRow(k)), 192, 384, R, C);
    ReshapeAt(seq(Pixels, k requires 0 <= k < Pixels => LookupCol(k)), 192, 384, R, C);
  }

  /** The lookup tables send the 192 x 384 read-out positions to distinct frame positions. */
  lemma LookupPlacement()
    ensures Placement(LookupRowTable(), LookupColTable())
  {
    var rowT, colT := LookupRowTable(), LookupColTable();
    forall R, C | 0 <= R < 192 && 0 <= C < 384
      ensures 0 <= rowT[R][C] < 192 && 0 <= colT[R][C] < 384
    {
      LookupTableAt(384 * R + C);
      DivModUnique(384 * R + C, 384, R, C);
    }
    forall R1, C1, R2, C2 | 0 <= R1 < 192 && 0 <= C1 < 384 && 0 <= R2 < 192 && 0 <= C2 < 384 &&
                            rowT[R1][C1] == rowT[R2][C2] && colT[R1][C1] == colT[R2][C2]
      ensures R1 == R2 && C1 == C2
    {
      var k1, k2 := 384 * R1 + C1, 384 * R2 + C2;
      LookupTableAt(k1);
      LookupTableAt(k2);
      DivModUnique(k1, 384, R1, C1);
      DivModUnique(k2, 384, R2, C2);
      LookupInverse(0, 0, k1);
      LookupInverse(0, 0, k2);
    }
  }

  /** Word `k` is the one its reassembled position holds. */
  lemma WordPositionHoldsWord(k: nat)
    requires k < Pixels
    ensures var rc := WordPosition(k); IndexImage()[rc.0][rc.1] == k
  {
    var p := BankPixelOf(k);
    IndexOfBankPixel(k);
    var rc := QuadrantPosition(p);
    QuadrantInverse(rc.0, rc.1, p);
  }

  /** Two frame positions never hold the same read-out word. */
  lemma IndexImageInjective(R1: nat, C1: nat, R2: nat, C2: nat)
    requires R1 < 192 && C1 < 384 && R2 < 192 && C2 < 384
    requires IndexImage()[R1][C1] == IndexImage()[R2][C2]
    ensures R1 == R2 && C1 == C2
  {
    var p1, p2 := QuadrantBank(R1, C1), QuadrantBank(R2, C2);
    BankPixelOfIndex(p1);
    BankPixelOfIndex(p2);
    QuadrantInverse(R1, C1, p1);
    QuadrantInverse(R2, C2, p2);
  }

  // ---------------------------------------------------------------- the scatter

  /** Every table entry is a frame position, and no two entries name the same one. */
  ghost predicate Placement(rowT: Matrix<int>, colT: Matrix<int>)
  {
    IsMatrix(rowT, 192, 384) && IsMatrix(colT, 192, 384) &&
    (forall R, C :: 0 <= R < 192 && 0 <= C < 384 ==> 0 <= rowT[R][C] < 192 && 0 <= colT[R][C] < 384) &&
    (forall R1, C1, R2, C2 ::
       (0 <= R1 < 192 && 0 <= C1 < 384 && 0 <= R2 < 192 && 0 <= C2 < 384 &&
        rowT[R1][C1] == rowT[R2][C2] && colT[R1][C1] == colT[R2][C2]) ==> R1 == R2 && C1 == C2)
  }

  /**
   * `current_frame_temp[rowT, colT] = imgDesc`: numpy's fancy-index
   * assignment into a zero frame, one position after the other.
   */
  method Scatter(rowT: Matrix<int>, colT: Matrix<int>, img: Matrix<nat>) returns (frame: array2<nat>)
    requires Placement(rowT, colT) && IsMatrix(img, 192, 384)
    ensures fresh(frame) && frame.Length0 == 192 && frame.Length1 == 384
    ensures forall R, C :: 0 <= R < 192 && 0 <= C < 384 ==> frame[rowT[R][C], colT[R][C]] == img[R][C]
  {
    frame := new nat[192, 384]((_, _) => 0);
    var R := 0;
    while R < 192
      invariant 0 <= R <= 192
      invariant forall R', C' :: 0 <= R' < R && 0 <= C' < 384 ==> frame[rowT[R'][C'], colT[R'][C']] == img[R'][C']
    {
      var C := 0;
      while C < 384
        invariant 0 <= C <= 384
        invariant forall R', C' :: 0 <= R' < 192 && 0 <= C' < 384 && (R' < R || (R' == R && C' < C)) ==>
                    frame[rowT[R'][C'], colT[R'][C']] == img[R'][C']
      {
        frame[rowT[R][C], colT[R][C]] := img[R][C];
        C := C + 1;
      }
      R := R + 1;
    }
  }

  /** `np.bitwise_and(frame, PixelBitMask)`, read out of the scatter target. */
  method MaskFrame(frame: array2<nat>, mask: nat) returns (img: Matrix<int>)
    requires frame.Length0 == 192 && frame.Length1 == 384
    ensures IsMatrix(img, 192, 384)
    ensures forall R, C :: 0 <= R < 192 && 0 <= C < 384 ==> img[R][C] == And(frame[R, C], mask)
  {
    img := seq(192, R requires 0 <= R < 192 reads frame =>
      seq(384, C requires 0 <= C < 384 reads frame => And(frame[R, C], mask)));
  }

  /** `imgDesc`: the payload of a full frame as 192 x 384, a zero image for any other length. */
  function Mv2ImgDesc(raw: seq<nat>): (m: Matrix<nat>)
    ensures IsMatrix(m, 192, 384)
  {
    if |raw| == FrameWords then Reshape(raw[24..FrameWords], 192, 384) else Zeros(192, 384)
  }

  /** The tables send entry (k / 384, k % 384) of `imgDesc`, k = `WordAt(R, C)`, to pixel (R, C), which is its masked value. */
  lemma Mv2Source(raw: seq<nat>, mask: nat, R: nat, C: nat)
    requires R < 192 && C < 384
    ensures var k := WordAt(R, C);
      k / 384 < 192 && k % 384 < 384 &&
      LookupRowTable()[k / 384][k % 384] == R && LookupColTable()[k / 384][k % 384] == C &&
      Mv2Image(raw, mask)[R][C] == And(Mv2ImgDesc(raw)[k / 384][k % 384], mask)
  {
    var k := WordAt(R, C);
    LookupInverse(R, C, k);
    LookupTableAt(k);
    if |raw| == FrameWords {
      ReshapeAt(raw[24..FrameWords], 192, 384, k / 384, k % 384);
    } else {
      AndBounded(0, mask);
    }
  }

  /** The current ePixHR-Mv2 receiver: the lookup tables it builds once, and `descramble`. */
  class HrMv2Receiver {
    var lookupRow: Matrix<int>
    var lookupCol: Matrix<int>

    ghost predicate Valid()
      reads this
    {
      lookupRow == LookupRowTable() && lookupCol == LookupColTable()
    }

    /** `__init__`: the row fix, then every frame position's word is looked up and its target recorded. */
    constructor ()
      ensures Valid()
    {
      var descImg := IndexImage();
      var lut := BuildRowLut();
      var lutRows := lut[..];
      var rowTable := new int[Pixels];
      var colTable := new int[Pixels];
      var row := 0;
      while row < 192
        invariant 0 <= row <= 192
        invariant forall R, C :: 0 <= R < row && 0 <= C < 384 ==>
                    rowTable[descImg[R][C]] == RowLut(R) && colTable[descImg[R][C]] == C
      {
        var col := 0;
        while col < 384
          invariant 0 <= col <= 384
          invariant forall R, C :: 0 <= R < 192 && 0 <= C < 384 && (R < row || (R == row && C < col)) ==>
                      rowTable[descImg[R][C]] == RowLut(R) && colTable[descImg[R][C]] == C
        {
          var index := descImg[row][col];
          forall R, C | 0 <= R < 192 && 0 <= C < 384 && descImg[R][C] == index
            ensures R == row && C == col
          {
            IndexImageInjective(R, C, row, col);
          }
          rowTable[index] := lutRows[row];
          colTable[index] := col;
          col := col + 1;
        }
        row := row + 1;
      }
      forall k | 0 <= k < Pixels
        ensures rowTable[k] == LookupRow(k) && colTable[k] == LookupCol(k)
      {
        WordPositionHoldsWord(k);
      }
      assert rowTable[..] == seq(Pixels, k requires 0 <= k < Pixels => LookupRow(k));
      assert colTable[..] == seq(Pixels, k requires 0 <= k < Pixels => LookupCol(k));
      lookupRow := Reshape(rowTable[..], 192, 384);
      lookupCol := Reshape(colTable[..], 192, 384);
    }

    /** `descramble`: a full frame is scattered through the tables, anything else leaves zeros. */
    method Descramble(raw: seq<nat>, mask: nat) returns (img: Matrix<int>)
      requires Valid()
      ensures img == Mv2Image(raw, mask)
    {
      var imgDesc := Mv2ImgDesc(raw);
      LookupPlacement();
      var frame := Scatter(lookupRow, lookupCol, imgDesc);
      img := MaskFrame(frame, mask);
      forall R, C | 0 <= R < 192 && 0 <= C < 384
        ensures img[R][C] == Mv2Image(raw, mask)[R][C]
      {
        var k := WordAt(R, C);
        Mv2Source(raw, mask, R, C);
        assert frame[R, C] == imgDesc[k / 384][k % 384];
      }
      MatrixEqual(img, Mv2Image(raw, mask), 192, 384);
    }
  }

  // ---------------------------------------------------------------- the older receiver

  /** `duopleRow` / `duopleColumn`: the even indices below `2 half`, then the odd ones. */
  function Duople(i: nat, half: nat): (d: nat)
    requires i < 2 * half
    ensures d < 2 * half
  {
    if i < half then 2 * i else 2 * (i - half) + 1
  }

  /** Where index `d` sits in the duople order. */
  function Unduople(d: nat, half: nat): (i: nat)
    requires d < 2 * half
    ensures i < 2 * half
  {
    if d % 2 == 0 then d / 2 else half + d / 2
  }

  /** `imgDescRow`: row R of the reassembled image goes to row `LegacyRow(R)` of the frame. */
  function LegacyRow(R: nat): (r: nat)
    requires R < 192
    ensures r < 192
  {
    Duople(R % 48, 24) + 48 * (R / 48)
  }

  /** `imgDescCol`: column C of the reassembled image goes to column `LegacyCol(C)` of the frame. */
  function LegacyCol(C: nat): (c: nat)
    requires C < 384
    ensures c < 384
  {
    Duople(C % 64, 32) + 64 * (C / 64)
  }

  function LegacyUnrow(R: nat): (r: nat)
    requires R < 192
    ensures r < 192
  {
    Unduople(R % 48, 24) + 48 * (R / 48)
  }

  function LegacyUncol(C: nat): (c: nat)
    requires C < 384
    ensures c < 384
  {
    Unduople(C % 64, 32) + 64 * (C / 64)
  }

  /** The duople order is a permutation of 0 .. 2 half - 1, with `Unduople` its inverse. */
  lemma DuopleInverse(i: nat, d: nat, half: nat)
    requires i < 2 * half && d < 2 * half
    ensures Unduople(Duople(i, half), half) == i
    ensures Duople(Unduople(d, half), half) == d
  {
    var e := Duople(i, half);
    assert e == 2 * (e / 2) + e % 2;
    assert d == 2 * (d / 2) + d % 2;
  }

  /** The older row table de-interleaves the rows of each 48-row block: a bijection on 0 .. 191. */
  lemma LegacyRowInverse(R: nat)
    requires R < 192
    ensures LegacyUnrow(LegacyRow(R)) == R && LegacyRow(LegacyUnrow(R)) == R
  {
    var q, r := R / 48, R % 48;
    DivBounds(R, 48);
    DuopleInverse(r, r, 24);
    DivModUnique(LegacyRow(R), 48, q, Duople(r, 24));
    DivModUnique(LegacyUnrow(R), 48, q, Unduople(r, 24));
  }

  /** The older column table de-interleaves the columns of each 64-column block: a bijection on 0 .. 383. */
  lemma LegacyColInverse(C: nat)
    requires C < 384
    ensures LegacyUncol(LegacyCol(C)) == C && LegacyCol(LegacyUncol(C)) == C
  {
    var q, c := C / 64, C % 64;
    DivBounds(C, 64);
    DuopleInverse(c, c, 32);
    DivModUnique(LegacyCol(C), 64, q, Duople(c, 32));
    DivModUnique(LegacyUncol(C), 64, q, Unduople(c, 32));
  }

  /** The `laneMap` column block of block column `li`. */
  function ColBlock(li: nat): (b: Matrix<int>)
    ensures IsMatrix(b, 48, 64)
  {
    seq(48, _ => seq(64, c requires 0 <= c < 64 => Duople(c, 32) + 64 * li))
  }

  /** The `laneMap` row block of block row `lj`. */
  function RowBlock(lj: nat): (b: Matrix<int>)
    ensures IsMatrix(b, 48, 64)
  {
    seq(48, r requires 0 <= r < 48 => seq(64, _ => Duople(r, 24) + 48 * lj))
  }

  /** `t[r0 : r0 + 48, c0 : c0 + 64] = block`. */
  function PasteBlock(t: Matrix<int>, r0: nat, c0: nat, block: Matrix<int>): (u: Matrix<int>)
    requires IsMatrix(t, 192, 384) && IsMatrix(block, 48, 64) && r0 + 48 <= 192 && c0 + 64 <= 384
    ensures IsMatrix(u, 192, 384)
    ensures forall R, C :: 0 <= R < 192 && 0 <= C < 384 ==>
              u[R][C] == if r0 <= R < r0 + 48 && c0 <= C < c0 + 64 then block[R - r0][C - c0] else t[R][C]
  {
    seq(192, R requires 0 <= R < 192 => seq(384, C requires 0 <= C < 384 =>
      if r0 <= R < r0 + 48 && c0 <= C < c0 + 64 then block[R - r0][C - c0] else t[R][C]))
  }

  function LegacyRowTable(): (t: Matrix<int>)
    ensures IsMatrix(t, 192, 384)
    ensures forall R, C :: 0 <= R < 192 && 0 <= C < 384 ==> t[R][C] == LegacyRow(R)
  {
    seq(192, R requires 0 <= R < 192 => seq(384, _ => LegacyRow(R)))
  }

  function LegacyColTable(): (t: Matrix<int>)
    ensures IsMatrix(t, 192, 384)
    ensures forall R, C :: 0 <= R < 192 && 0 <= C < 384 ==> t[R][C] == LegacyCol(C)
  {
    seq(192, _ => seq(384, C requires 0 <= C < 384 => LegacyCol(C)))
  }

  lemma LegacyPlacement()
    ensures Placement(LegacyRowTable(), LegacyColTable())
  {
    var rowT, colT := LegacyRowTable(), LegacyColTable();
    forall R1, C1, R2, C2 | 0 <= R1 < 192 && 0 <= C1 < 384 && 0 <= R2 < 192 && 0 <= C2 < 384 &&
                            rowT[R1][C1] == rowT[R2][C2] && colT[R1][C1] == colT[R2][C2]
      ensures R1 == R2 && C1 == C2
    {
      LegacyRowInverse(R1);
      LegacyRowInverse(R2);
      LegacyColInverse(C1);
      LegacyColInverse(C2);
    }
  }

  /** The read-out word of reassembled position (R, C) in the older layout: banks read row by row. */
  function LegacyWord(R: nat, C: nat): (k: nat)
    requires R < 192 && C < 384
    ensures k < Pixels
  {
    24 * (64 * (R % 48) + C % 64) + QuadrantBank(R, C).bank
  }

  /** Every read-out word has exactly one reassembled position in the older layout. */
  lemma LegacyWordInjective(R1: nat, C1: nat, R2: nat, C2: nat)
    requires R1 < 192 && C1 < 384 && R2 < 192 && C2 < 384
    requires LegacyWord(R1, C1) == LegacyWord(R2, C2)
    ensures R1 == R2 && C1 == C2
  {
    var p1, p2 := QuadrantBank(R1, C1), QuadrantBank(R2, C2);
    DivModUnique(LegacyWord(R1, C1), 24, 64 * p1.row + p1.col, p1.bank);
    DivModUnique(LegacyWord(R2, C2), 24, 64 * p2.row + p2.col, p2.bank);
    DivModUnique(64 * p1.row + p1.col, 64, p1.row, p1.col);
    DivModUnique(64 * p2.row + p2.col, 64, p2.row, p2.col);
    QuadrantInverse(R1, C1, p1);
    QuadrantInverse(R2, C2, p2);
  }

  /**
   * The older `imgDesc`: the payload after the header cut into rows of 24
   * words, column `b` of those rows reshaped to 48 x 64 as bank `b`, and the
   * banks reassembled into quadrants.
   */
  function LegacyImgDesc(raw: seq<nat>): (m: Matrix<nat>)
    requires |raw| == FrameWords
    ensures IsMatrix(m, 192, 384)
    ensures forall R, C :: 0 <= R < 192 && 0 <= C < 384 ==> m[R][C] == raw[24 + LegacyWord(R, C)]
  {
    var adcImg := Reshape(raw[24..FrameWords], 3072, 24);
    var banks := seq(24, b requires 0 <= b < 24 => LegacyBank(adcImg, b));
    var m := Reassemble(banks);
    forall R, C | 0 <= R < 192 && 0 <= C < 384
      ensures m[R][C] == raw[24 + LegacyWord(R, C)]
    {
      LegacyCell(raw, adcImg, banks, R, C);
    }
    m
  }

  /** Pixel (R, C) of the reassembled older-layout banks is payload word 24 + LegacyWord(R, C). */
  lemma LegacyCell(raw: seq<nat>, adcImg: Matrix<nat>, banks: seq<Matrix<nat>>, R: nat, C: nat)
    requires |raw| == FrameWords && adcImg == Reshape(raw[24..FrameWords], 3072, 24)
    requires |banks| == 24 && forall b :: 0 <= b < 24 ==> banks[b] == LegacyBank(adcImg, b)
    requires R < 192 && C < 384
    ensures BankShape(banks)
    ensures Reassemble(banks)[R][C] == raw[24 + LegacyWord(R, C)]
  {
    ReassembleAt(banks, R, C);
    LegacyBankAt(raw, QuadrantBank(R, C).bank, R % 48, C % 64);
  }

  /** `adcImg[:, b].reshape(48, 64)`: bank `b` of the older layout. */
  function LegacyBank(adcImg: Matrix<nat>, b: nat): (m: Matrix<nat>)
    requires IsMatrix(adcImg, 3072, 24) && b < 24
    ensures IsMatrix(m, 48, 64)
  {
    Reshape(seq(3072, p requires 0 <= p < 3072 => adcImg[p][b]), 48, 64)
  }

  /** Pixel (r, c) of bank b of the older layout is payload word 24 (64 r + c) + b. */
  lemma LegacyBankAt(raw: seq<nat>, b: nat, r: nat, c: nat)
    requires |raw| == FrameWords && b < 24 && r < 48 && c < 64
    ensures LegacyBank(Reshape(raw[24..FrameWords], 3072, 24), b)[r][c] == raw[24 + 24 * (64 * r + c) + b]
  {
    var adcImg := Reshape(raw[24..FrameWords], 3072, 24);
    ReshapeAt(seq(3072, p requires 0 <= p < 3072 => adcImg[p][b]), 48, 64, r, c);
    ReshapeAt(raw[24..FrameWords], 3072, 24, r * 64 + c, b);
  }

  /**
   * The image the older receiver returns: the reassembled word at
   * (LegacyUnrow(R), LegacyUncol(C)), masked, for a 73752-word frame, and a
   * zero image for any other length.
   */
  function LegacyImage(raw: seq<nat>, mask: nat): (img: Matrix<int>)
    ensures IsMatrix(img, 192, 384)
    ensures |raw| != FrameWords ==> forall R, C :: 0 <= R < 192 && 0 <= C < 384 ==> img[R][C] == 0
  {
    if |raw| == FrameWords then seq(192, R requires 0 <= R < 192 => LegacyImageRow(raw, mask, R))
    else Zeros(192, 384)
  }

  /** Row R of `LegacyImage` for a full frame. */
  function LegacyImageRow(raw: seq<nat>, mask: nat, R: nat): (row: seq<int>)
    requires |raw| == FrameWords && R < 192
    ensures |row| == 384
  {
    seq(384, C requires 0 <= C < 384 => LegacyPixel(raw, mask, R, C))
  }

  /** Pixel (R, C) of `LegacyImage` for a full frame. */
  function LegacyPixel(raw: seq<nat>, mask: nat, R: nat, C: nat): nat
    requires |raw| == FrameWords && R < 192 && C < 384
  {
    And(raw[24 + LegacyWord(LegacyUnrow(R), LegacyUncol(C))], mask)
  }

  /** Reassembled position (R, C) of a full frame lands at (imgDescRow, imgDescCol), masked. */
  lemma LegacyPlacementOfWord(raw: seq<nat>, mask: nat, R: nat, C: nat)
    requires |raw| == FrameWords && R < 192 && C < 384
    ensures LegacyImage(raw, mask)[LegacyRow(R)][LegacyCol(C)] == And(raw[24 + LegacyWord(R, C)], mask)
  {
    var R', C' := LegacyRow(R), LegacyCol(C);
    var img := LegacyImage(raw, mask);
    assert img[R'][C'] == And(raw[24 + LegacyWord(LegacyUnrow(R'), LegacyUncol(C'))], mask);
    LegacyRowInverse(R);
    LegacyColInverse(C);
  }

  /** The older `imgDesc` of a full frame, a zero image for any other length. */
  function LegacyFrameDesc(raw: seq<nat>): (m: Matrix<nat>)
    ensures IsMatrix(m, 192, 384)
  {
    if |raw| == FrameWords then LegacyImgDesc(raw) else Zeros(192, 384)
  }

  /** The older tables send `imgDesc` entry (LegacyUnrow(R), LegacyUncol(C)) to pixel (R, C), which is its masked value. */
  lemma LegacySource(raw: seq<nat>, mask: nat, R: nat, C: nat)
    requires R < 192 && C < 384
    ensures var R', C' := LegacyUnrow(R), LegacyUncol(C);
      LegacyRowTable()[R'][C'] == R && LegacyColTable()[R'][C'] == C &&
      LegacyImage(raw, mask)[R][C] == And(LegacyFrameDesc(raw)[R'][C'], mask)
  {
    LegacyRowInverse(R);
    LegacyColInverse(C);
    var R', C' := LegacyUnrow(R), LegacyUncol(C);
    if |raw| == FrameWords {
      assert LegacyImage(raw, mask)[R][C] == LegacyPixel(raw, mask, R, C);
      assert LegacyImgDesc(raw)[R'][C'] == raw[24 + LegacyWord(R', C')];
    } else {
      AndBounded(0, mask);
    }
  }

  /** Block (lj, li) comes before block row `bj` of block column `bi` in the fill order. */
  predicate BlockDone(R: nat, C: nat, bi: nat, bj: nat)
  {
    C / 64 < bi || (C / 64 == bi && R / 48 < bj)
  }

  /** Every cell of the blocks pasted so far holds its `imgDescRow` value. */
  ghost predicate RowsFilled(rowT: Matrix<int>, bi: nat, bj: nat)
  {
    IsMatrix(rowT, 192, 384) &&
    forall R: nat, C: nat :: 0 <= R < 192 && 0 <= C < 384 && BlockDone(R, C, bi, bj) ==> rowT[R][C] == LegacyRow(R)
  }

  /** Every cell of the blocks pasted so far holds its `imgDescCol` value. */
  ghost predicate ColsFilled(colT: Matrix<int>, bi: nat, bj: nat)
  {
    IsMatrix(colT, 192, 384) &&
    forall R: nat, C: nat :: 0 <= R < 192 && 0 <= C < 384 && BlockDone(R, C, bi, bj) ==> colT[R][C] == LegacyCol(C)
  }

  /** The block (lj, li) just pasted holds the table values. */
  lemma LegacyBlockCell(li: nat, lj: nat, R: nat, C: nat)
    requires li < 6 && lj < 4 && 48 * lj <= R < 48 * lj + 48 && 64 * li <= C < 64 * li + 64
    ensures R < 192 && C < 384
    ensures RowBlock(lj)[R - 48 * lj][C - 64 * li] == LegacyRow(R)
    ensures ColBlock(li)[R - 48 * lj][C - 64 * li] == LegacyCol(C)
  {
    DivModUnique(R, 48, lj, R - 48 * lj);
    DivModUnique(C, 64, li, C - 64 * li);
  }

  /** A cell is in the region filled after block (lj, li) iff it was filled before or lies in that block. */
  lemma BlockDoneStep(R: nat, C: nat, li: nat, lj: nat)
    ensures BlockDone(R, C, li, lj + 1) <==>
            BlockDone(R, C, li, lj) || (48 * lj <= R < 48 * lj + 48 && 64 * li <= C < 64 * li + 64)
  {
    DivBounds(R, 48);
    DivBounds(C, 64);
    if 48 * lj <= R < 48 * lj + 48 && 64 * li <= C < 64 * li + 64 {
      DivModUnique(R, 48, lj, R - 48 * lj);
      DivModUnique(C, 64, li, C - 64 * li);
    }
  }

  /** Pasting row block (lj, li) extends the filled region of the row table by that block. */
  lemma RowsPasteStep(rowT: Matrix<int>, li: nat, lj: nat)
    requires li < 6 && lj < 4 && RowsFilled(rowT, li, lj)
    ensures RowsFilled(PasteBlock(rowT, 48 * lj, 64 * li, RowBlock(lj)), li, lj + 1)
  {
    var t := PasteBlock(rowT, 48 * lj, 64 * li, RowBlock(lj));
    forall R: nat, C: nat | 0 <= R < 192 && 0 <= C < 384 && BlockDone(R, C, li, lj + 1)
      ensures t[R][C] == LegacyRow(R)
    {
      BlockDoneStep(R, C, li, lj);
      if 48 * lj <= R < 48 * lj + 48 && 64 * li <= C < 64 * li + 64 {
        LegacyBlockCell(li, lj, R, C);
      }
    }
  }

  /** Pasting column block (lj, li) extends the filled region of the column table by that block. */
  lemma ColsPasteStep(colT: Matrix<int>, li: nat, lj: nat)
    requires li < 6 && lj < 4 && ColsFilled(colT, li, lj)
    ensures ColsFilled(PasteBlock(colT, 48 * lj, 64 * li, ColBlock(li)), li, lj + 1)
  {
    var t := PasteBlock(colT, 48 * lj, 64 * li, ColBlock(li));
    forall R: nat, C: nat | 0 <= R < 192 && 0 <= C < 384 && BlockDone(R, C, li, lj + 1)
      ensures t[R][C] == LegacyCol(C)
    {
      BlockDoneStep(R, C, li, lj);
      if 48 * lj <= R < 48 * lj + 48 && 64 * li <= C < 64 * li + 64 {
        LegacyBlockCell(li, lj, R, C);
      }
    }
  }

  /** A finished block column lets the next one start. */
  lemma LegacyNextColumn(rowT: Matrix<int>, colT: Matrix<int>, li: nat)
    requires RowsFilled(rowT, li, 4) && ColsFilled(colT, li, 4)
    ensures RowsFilled(rowT, li + 1, 0) && ColsFilled(colT, li + 1, 0)
  {
    forall R: nat, C: nat | 0 <= R < 192 && 0 <= C < 384 && BlockDone(R, C, li + 1, 0)
      ensures BlockDone(R, C, li, 4)
    {
      DivBounds(R, 48);
    }
  }

  /** The older ePixHR-Mv2 receiver kept beside the analysis code. */
  class HrMv2LegacyReceiver {
    var imgDescRow: Matrix<int>
    var imgDescCol: Matrix<int>

    ghost predicate Valid()
      reads this
    {
      imgDescRow == LegacyRowTable() && imgDescCol == LegacyColTable()
    }

    /** `__init__`: block column after block column, block row after block row, `laneMap` is pasted in. */
    constructor ()
      ensures Valid()
    {
      var colT := Zeros(192, 384);
      var rowT := Zeros(192, 384);
      var li := 0;
      while li < 6
        invariant 0 <= li <= 6
        invariant RowsFilled(rowT, li, 0) && ColsFilled(colT, li, 0)
      {
        var lj := 0;
        while lj < 4
          invariant 0 <= lj <= 4
          invariant RowsFilled(rowT, li, lj) && ColsFilled(colT, li, lj)
        {
          RowsPasteStep(rowT, li, lj);
          ColsPasteStep(colT, li, lj);
          colT := PasteBlock(colT, 48 * lj, 64 * li, ColBlock(li));
          rowT := PasteBlock(rowT, 48 * lj, 64 * li, RowBlock(lj));
          lj := lj + 1;
        }
        LegacyNextColumn(rowT, colT, li);
        li := li + 1;
      }
      assert forall R :: 0 <= R < 192 ==> rowT[R] == LegacyRowTable()[R];
      assert forall R :: 0 <= R < 192 ==> colT[R] == LegacyColTable()[R];
      imgDescRow := rowT;
      imgDescCol := colT;
    }

    /** `descramble`: reassemble a full frame's banks, scatter through the tables, mask. */
    method Descramble(raw: seq<nat>, mask: nat) returns (img: Matrix<int>)
      requires Valid()
      ensures img == LegacyImage(raw, mask)
    {
      var imgDesc := LegacyFrameDesc(raw);
      LegacyPlacement();
      var frame := Scatter(imgDescRow, imgDescCol, imgDesc);
      img := MaskFrame(frame, mask);
      forall R, C | 0 <= R < 192 && 0 <= C < 384
        ensures img[R][C] == LegacyImage(raw, mask)[R][C]
      {
        LegacySource(raw, mask, R, C);
        assert frame[R, C] == imgDesc[LegacyUnrow(R)][LegacyUncol(C)];
      }
      MatrixEqual(img, LegacyImage(raw, mask), 192, 384);
    }
  }
}
