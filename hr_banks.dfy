/**
 * The bank-column descramblers of the ePixHR 10k family.  The payload after
 * the header is a sequence of `stride`-word groups, one word per bank; bank
 * `b` is column `b` of those groups, cut into rows of 32 pixels.  A readout
 * quirk is undone by the row-shift patch: columns 30 and 31 of every bank
 * move down by one row.  The banks are then placed side by side.
 *
 * Also here: the two descramblers of the same family that only cut the
 * header off and reshape (ePixHR10k2M in the receiver tree, ePixHRDuo10kT).
 */
module HrBanks {
  import opened Common

  // ---------------------------------------------------------------- banks

  /** Word (32 r + c) stride + b, where pixel (r, c) of bank b comes from, lies inside the payload. */
  lemma BankIndex(r: nat, c: nat, b: nat, rows: nat, stride: nat)
    requires r < rows && c < 32 && b < stride
    ensures (r * 32 + c) * stride + b < rows * 32 * stride
  {
    CellIndex(r, c, rows, 32);
    CellIndex(r * 32 + c, b, rows * 32, stride);
  }

  /**
   * Bank `b` as a `rows` x 32 matrix (`adcImg[:, b].reshape(-1, 32)`): column
   * b of the payload cut into rows of `stride` words, cut into rows of 32.
   * The fallback 0 is never taken when the precondition holds (`BankIndex`).
   */
  function Bank(img: seq<int>, stride: nat, rows: nat, b: nat): (m: Matrix<int>)
    requires b < stride && |img| == rows * 32 * stride
    ensures IsMatrix(m, rows, 32)
  {
    seq(rows, r => seq(32, c => var k := (r * 32 + c) * stride + b; if 0 <= k < |img| then img[k] else 0))
  }

  /** Pixel (r, c) of bank b is word (32 r + c) stride + b of the payload. */
  lemma BankAt(img: seq<int>, stride: nat, rows: nat, b: nat, r: nat, c: nat)
    requires b < stride && |img| == rows * 32 * stride
    requires r < rows && c < 32
    ensures (r * 32 + c) * stride + b < |img| && Bank(img, stride, rows, b)[r][c] == img[(r * 32 + c) * stride + b]
  {
    BankIndex(r, c, b, rows, stride);
  }

  /** The row a patched cell takes its value from: the row above in columns 30 and 31 below row 0, its own row elsewhere. */
  function SourceRow(r: nat, c: nat): nat
  {
    if (c == 30 || c == 31) && r > 0 then r - 1 else r
  }

  /** The row-shift patch: the cell above, in columns 30 and 31 below row 0; the cell itself elsewhere. */
  function Shifted(m: Matrix<int>, rows: nat, r: nat, c: nat): int
    requires IsMatrix(m, rows, 32) && r < rows && c < 32
  {
    if (c == 30 || c == 31) && r > 0 then m[r - 1][c] else m[r][c]
  }

  function RowShift(m: Matrix<int>, rows: nat): (s: Matrix<int>)
    requires IsMatrix(m, rows, 32)
    ensures IsMatrix(s, rows, 32)
  {
    seq(rows, r requires 0 <= r < rows => seq(32, c requires 0 <= c < 32 => Shifted(m, rows, r, c)))
  }

  /**
   * `adcImg2[1:, 30] = adcImg2[:-1, 30]` and the same for column 31, in
   * place: walking up from the last row, each cell takes the one above it.
   */
  method PatchRowShift(a: array2<int>)
    requires a.Length1 == 32
    modifies a
    ensures forall r, c :: 0 <= r < a.Length0 && 0 <= c < 32 ==>
              a[r, c] == if (c == 30 || c == 31) && r > 0 then old(a[r - 1, c]) else old(a[r, c])
  {
    var r := a.Length0 - 1;
    while r > 0
      invariant 0 <= r < a.Length0 || (a.Length0 == 0 && r == -1)
      invariant forall i, c :: 0 <= i < a.Length0 && 0 <= c < 32 ==>
                  a[i, c] == if (c == 30 || c == 31) && r < i then old(a[i - 1, c]) else old(a[i, c])
    {
      a[r, 30] := a[r - 1, 30];
      a[r, 31] := a[r - 1, 31];
      r := r - 1;
    }
  }

  /** Bank `b` copied into an array, patched in place, and read back. */
  method PatchedBank(img: seq<int>, stride: nat, rows: nat, b: nat) returns (m: Matrix<int>)
    requires b < stride && |img| == rows * 32 * stride
    ensures m == RowShift(Bank(img, stride, rows, b), rows)
  {
    var bank := Bank(img, stride, rows, b);
    var a := new int[rows, 32]((r, c) requires 0 <= r < rows && 0 <= c < 32 => bank[r][c]);
    PatchRowShift(a);
    m := seq(rows, r requires 0 <= r < rows reads a => seq(32, c requires 0 <= c < 32 reads a => a[r, c]));
    var spec := RowShift(bank, rows);
    assert forall r :: 0 <= r < rows ==> m[r] == spec[r];
  }

  /** Banks 0 .. count - 1, each patched, side by side (`quadrant0sq`). */
  function BankStrip(img: seq<int>, stride: nat, rows: nat, count: nat): (s: Matrix<int>)
    requires 1 <= count <= stride && |img| == rows * 32 * stride
    ensures IsMatrix(s, rows, 32 * count)
    decreases count
  {
    var last := RowShift(Bank(img, stride, rows, count - 1), rows);
    if count == 1 then last else SideBySide(BankStrip(img, stride, rows, count - 1), last)
  }

  /** Columns 32 b .. 32 b + 31 of the strip are patched bank `b`. */
  lemma {:induction false} BankStripAt(img: seq<int>, stride: nat, rows: nat, count: nat, b: nat, r: nat, c: nat)
    requires 1 <= count <= stride && |img| == rows * 32 * stride
    requires b < count && r < rows && c < 32
    ensures 32 * b + c < 32 * count
    ensures BankStrip(img, stride, rows, count)[r][32 * b + c] == RowShift(Bank(img, stride, rows, b), rows)[r][c]
  {
    if b < count - 1 {
      BankStripAt(img, stride, rows, count - 1, b, r, c);
    }
  }

  /** Pixel (r, c) of patched bank b is word (32 `SourceRow(r, c)` + c) stride + b. */
  lemma PatchedCell(img: seq<int>, stride: nat, rows: nat, b: nat, r: nat, c: nat)
    requires b < stride && |img| == rows * 32 * stride
    requires r < rows && c < 32
    ensures (SourceRow(r, c) * 32 + c) * stride + b < |img| &&
            RowShift(Bank(img, stride, rows, b), rows)[r][c] == img[(SourceRow(r, c) * 32 + c) * stride + b]
  {
    var r' := SourceRow(r, c);
    BankAt(img, stride, rows, b, r', c);
    var bank := Bank(img, stride, rows, b);
    assert RowShift(bank, rows)[r][c] == bank[r'][c];
  }

  /** Banks 0 .. count - 1 patched one after the other and concatenated to the right. */
  method StripBanks(img: seq<int>, stride: nat, rows: nat, count: nat) returns (strip: Matrix<int>)
    requires 1 <= count <= stride && |img| == rows * 32 * stride
    ensures strip == BankStrip(img, stride, rows, count)
  {
    strip := PatchedBank(img, stride, rows, 0);
    var i := 1;
    while i < count
      invariant 1 <= i <= count
      invariant strip == BankStrip(img, stride, rows, i)
    {
      var bank := PatchedBank(img, stride, rows, i);
      strip := SideBySide(strip, bank);
      i := i + 1;
    }
  }

  // ---------------------------------------------------------------- ePixHR10k2M (asics)

  const Hr10k2MWords: nat := 110640
  const Hr10k2MRows: nat := 144
  const Hr10k2MWidth: nat := 768   // ASIC_WIDTH * ASIC_NUM

  /**
   * `DataReceiverEpixHr10k2M.descramble` as written: a 110640-word payload
   * is cut after 24 header words, de-interleaved into 24 banks of 144 x 32,
   * and banks 0 .. 22 are patched and concatenated; any other length gives
   * a 144 x 768 zero image.
   */
  function Hr10k2MAsWritten(raw: seq<int>): (m: Matrix<int>)
  {
    if |raw| == Hr10k2MWords then BankStrip(raw[24..110616], 24, Hr10k2MRows, 23)
    else Zeros(Hr10k2MRows, Hr10k2MWidth)
  }

  /** The same descrambler with all 24 banks, as the 768-wide geometry and the error path call for. */
  function Hr10k2MImage(raw: seq<int>): (m: Matrix<int>)
    ensures IsMatrix(m, Hr10k2MRows, Hr10k2MWidth)
    ensures |raw| != Hr10k2MWords ==> forall r, c :: 0 <= r < Hr10k2MRows && 0 <= c < Hr10k2MWidth ==> m[r][c] == 0
  {
    if |raw| == Hr10k2MWords then BankStrip(raw[24..110616], 24, Hr10k2MRows, 24)
    else Zeros(Hr10k2MRows, Hr10k2MWidth)
  }

  /**
   * The loop leaves out bank 23: a full frame comes out 736 columns wide
   * while every other frame (and the receiver's declared geometry) is 768
   * wide, and the 736 columns it has are the first 736 of the 24-bank image.
   */
  lemma Hr10k2MDropsLastBank(raw: seq<int>)
    requires |raw| == Hr10k2MWords
    ensures IsMatrix(Hr10k2MAsWritten(raw), 144, 736)
    ensures forall r, c :: 0 <= r < 144 && 0 <= c < 736 ==> Hr10k2MAsWritten(raw)[r][c] == Hr10k2MImage(raw)[r][c]
  {
    var img := raw[24..110616];
    var a, m := Hr10k2MAsWritten(raw), Hr10k2MImage(raw);
    forall r, c | 0 <= r < 144 && 0 <= c < 736
      ensures a[r][c] == m[r][c]
    {
      var b, c' := c / 32, c % 32;
      BankStripAt(img, 24, 144, 23, b, r, c');
      BankStripAt(img, 24, 144, 24, b, r, c');
    }
  }

  /** A concrete full frame whose image is narrower than the zero image of a short frame. */
  lemma Hr10k2MWidthMismatch()
    ensures |Hr10k2MAsWritten(seq(Hr10k2MWords, _ => 0))[0]| == 736
    ensures |Hr10k2MAsWritten([])[0]| == 768
  {
    Hr10k2MDropsLastBank(seq(Hr10k2MWords, _ => 0));
  }

  /** Every bank of a full frame is shown, each at its own 32 columns. */
  lemma Hr10k2MPixel(raw: seq<int>, b: nat, r: nat, c: nat)
    requires |raw| == Hr10k2MWords && b < 24 && r < Hr10k2MRows && c < 32
    ensures 24 + (SourceRow(r, c) * 32 + c) * 24 + b < |raw| &&
            Hr10k2MImage(raw)[r][32 * b + c] == raw[24 + (SourceRow(r, c) * 32 + c) * 24 + b]
  {
    var img := raw[24..110616];
    BankStripAt(img, 24, Hr10k2MRows, 24, b, r, c);
    PatchedCell(img, 24, Hr10k2MRows, b, r, c);
  }

  /** The descrambler with the bank loop, over all 24 banks. */
  method Hr10k2MDescramble(raw: seq<int>) returns (m: Matrix<int>)
    ensures m == Hr10k2MImage(raw)
  {
    if |raw| == Hr10k2MWords {
      m := StripBanks(raw[24..110616], 24, Hr10k2MRows, 24);
    } else {
      m := Zeros(Hr10k2MRows, Hr10k2MWidth);
    }
  }

  // ---------------------------------------------------------------- ePixHRSingle10kT

  /**
   * `DataReceiverEpixHrSingle10kT.descramble`: words 6 .. 28037 in groups of
   * 6; a slice that is not a whole number of groups fails in the reshape, a
   * bank of other than 4672 words is a descramble error, and otherwise the 6
   * patched 146 x 32 banks are placed side by side.
   */
  function Single10kTImage(raw: seq<int>): (res: Result<Matrix<int>>)
    ensures res.Ok? <==> |raw| >= 28038
    ensures res.Ok? ==> IsMatrix(res.value, 146, 192)
    ensures res == Err(ReshapeError) <==> 6 < |raw| < 28038 && |raw| % 6 != 0
    ensures res == Err(DescrambleError) <==> |raw| < 28038 && (|raw| <= 6 || |raw| % 6 == 0)
  {
    var q := Slice(raw, 6, 28038);
    if |q| % 6 != 0 then Err(ReshapeError)
    else if |q| / 6 != 4672 then Err(DescrambleError)
    else Ok(BankStrip(q, 6, 146, 6))
  }

  /** Pixel (r, 32 b + c) of a full frame is word 6 + 6 (32 SourceRow(r, c) + c) + b. */
  lemma Single10kTPixel(raw: seq<int>, b: nat, r: nat, c: nat)
    requires |raw| >= 28038 && b < 6 && r < 146 && c < 32
    ensures 6 + (SourceRow(r, c) * 32 + c) * 6 + b < |raw| &&
            Single10kTImage(raw).value[r][32 * b + c] == raw[6 + (SourceRow(r, c) * 32 + c) * 6 + b]
  {
    var q := Slice(raw, 6, 28038);
    BankStripAt(q, 6, 146, 6, b, r, c);
    PatchedCell(q, 6, 146, b, r, c);
  }

  /** The receiver with its `DescError` counter. */
  class Single10kTReceiver {
    var descError: int

    constructor ()
      ensures descError == 0
    {
      descError := 0;
    }

    /** The bank loop: each bank's length is checked before it is patched; a failed check counts one error. */
    method Descramble(raw: seq<int>) returns (res: Result<Matrix<int>>)
      modifies this
      ensures res == Single10kTImage(raw)
      ensures descError == old(descError) + (if res == Err(DescrambleError) then 1 else 0)
    {
      var q := Slice(raw, 6, 28038);
      if |q| % 6 != 0 {
        return Err(ReshapeError);
      }
      var n := |q| / 6;
      var strip: Matrix<int> := [];
      var i := 0;
      while i < 6
        invariant 0 <= i <= 6
        invariant descError == old(descError)
        invariant i > 0 ==> n == 4672 && |q| == 146 * 32 * 6 && strip == BankStrip(q, 6, 146, i)
      {
        if n == 4672 {
          var bank := PatchedBank(q, 6, 146, i);
          strip := if i == 0 then bank else SideBySide(strip, bank);
        } else {
          descError := descError + 1;
          return Err(DescrambleError);
        }
        i := i + 1;
      }
      res := Ok(strip);
    }
  }

  // ---------------------------------------------------------------- header skip and reshape

  /** ePixHR10k2M in the receiver tree: words 6 .. 110597 as 576 rows of 192, or a failed reshape. */
  function Hr10k2MReshape(raw: seq<int>): (res: Result<Matrix<int>>)
    ensures res.Ok? <==> |raw| >= 110598
    ensures res.Err? ==> res.fault == ReshapeError
    ensures res.Ok? ==> IsMatrix(res.value, 576, 192)
    ensures res.Ok? ==> forall r, c :: 0 <= r < 576 && 0 <= c < 192 ==> 6 + r * 192 + c < |raw| && res.value[r][c] == raw[6 + r * 192 + c]
  {
    var s := Slice(raw, 6, 110598);
    if |s| != 576 * 192 then Err(ReshapeError) else Ok(Reshape(s, 576, 192))
  }

  /**
   * ePixHRDuo10kT: words 6 .. 55301 cut into rows of 384; a slice that is not
   * a whole number of rows fails in the reshape.
   */
  function HrDuoImage(raw: seq<int>): (res: Result<Matrix<int>>)
    ensures res.Ok? <==> |raw| <= 6 || |raw| >= 55302 || (|raw| - 6) % 384 == 0
    ensures res.Err? ==> res.fault == ReshapeError
    ensures |raw| >= 55302 ==> res.Ok? && IsMatrix(res.value, 144, 384)
    ensures res.Ok? ==> forall r, c :: 0 <= r < |res.value| && 0 <= c < 384 ==>
              c < |res.value[r]| && 6 + r * 384 + c < |raw| && res.value[r][c] == raw[6 + r * 384 + c]
  {
    var s := Slice(raw, 6, 55302);
    if |s| % 384 != 0 then Err(ReshapeError)
    else
      var m := Reshape(s, |s| / 384, 384);
      forall r, c | 0 <= r < |m| && 0 <= c < 384
        ensures 6 + r * 384 + c < |raw| && m[r][c] == raw[6 + r * 384 + c]
      {
        assert m[r][c] == s[r * 384 + c];
      }
      Ok(m)
  }
}
