/**
 * The ePix100a and ePix100p descramblers.  After a 32-byte header the
 * payload is a sequence of 1536-byte super-rows (384 pixels x 4 bytes) in
 * readout order; the descramblers gather them into a top and a bottom half
 * by parity and concatenate the halves.
 */
module Epix100 {
  import opened Common
  import opened Bits
  import opened Buffers

  const HeaderBytes: nat := 32
  const Height100a: nat := 708
  const Width100a: nat := 768        // _NumAsicsPerSide * _NumAdcChPerAsic * _NumColPerAdcCh
  const Rows100p: nat := 706

  // ---------------------------------------------------------------- super-rows

  /** Super-row k, `data[k * 1536 : (k + 1) * 1536]` (384 pixels of 4 bytes), clipped like a Python slice. */
  function SuperRow(data: seq<Byte>, k: nat): seq<Byte>
  {
    var len := if (k + 1) * 1536 <= |data| then 1536 else if k * 1536 < |data| then |data| - k * 1536 else 0;
    seq(len, t requires 0 <= t < len => data[k * 1536 + t])
  }

  /** A super-row holds at most 1536 bytes, exactly 1536 when the data holds it in full. */
  lemma SuperRowLength(data: seq<Byte>, k: nat)
    ensures |SuperRow(data, k)| <= 1536
    ensures |SuperRow(data, k)| == 1536 <==> (k + 1) * 1536 <= |data|
  {
  }

  /** The four halves the descramblers build: the top and bottom halves of ePix100a and of ePix100p. */
  datatype Half = Top100a | Bottom100a | Bottom100p | Top100p

  /** The number of super-rows a half receives. */
  function Count(h: Half): nat
  {
    if h == Top100a || h == Bottom100a then 354 else 353
  }

  /** The number of super-rows in a frame of the sensor the half belongs to. */
  function FrameRows(h: Half): nat
  {
    if h == Top100a || h == Bottom100a then Height100a else Rows100p
  }

  /** The i-th super-row appended to a half (only i < `Count(h)` is ever used). */
  function HalfRow(h: Half, i: nat): nat
  {
    match h
    case Top100a => if i < 354 then 707 - 2 * i else 0
    case Bottom100a => 2 * i
    case Bottom100p => if i == 0 then 0 else 2 * i + 1
    case Top100p => if i == 0 then 1 else 2 * i
  }

  /** Every super-row a half receives lies inside the frame. */
  lemma HalfRowInFrame(h: Half, i: nat)
    requires i < Count(h)
    ensures HalfRow(h, i) < FrameRows(h)
  {
  }

  /** The first `n` super-rows of a half, one after the other (one `extend` per super-row). */
  function Run(data: seq<Byte>, h: Half, n: nat): seq<Byte>
  {
    if n == 0 then []
    else Run(data, h, n - 1) + SuperRow(data, HalfRow(h, n - 1))
  }

  /** With the whole frame present, a run of n super-rows is 1536 n bytes long. */
  lemma {:induction false} RunLength(data: seq<Byte>, h: Half, n: nat)
    requires n <= Count(h) && |data| >= FrameRows(h) * 1536
    ensures |Run(data, h, n)| == 1536 * n
  {
    if n > 0 {
      RunLength(data, h, n - 1);
      HalfRowInFrame(h, n - 1);
      SuperRowLength(data, HalfRow(h, n - 1));
    }
  }

  /** With the whole frame present, byte t of the i-th super-row of a run is byte t of super-row `HalfRow(h, i)`. */
  lemma {:induction false} RunAt(data: seq<Byte>, h: Half, n: nat, i: nat, t: nat)
    requires n <= Count(h) && |data| >= FrameRows(h) * 1536
    requires i < n && t < 1536
    ensures 1536 * i + t < |Run(data, h, n)|
    ensures 1536 * HalfRow(h, i) + t < |data|
    ensures Run(data, h, n)[1536 * i + t] == data[1536 * HalfRow(h, i) + t]
  {
    RunLast(data, h, i, t);
    RunKeeps(data, h, i + 1, n, 1536 * i + t);
  }

  /** Extending a run from m to n super-rows leaves its first bytes in place. */
  lemma {:induction false} RunKeeps(data: seq<Byte>, h: Half, m: nat, n: nat, x: nat)
    requires m <= n && x < |Run(data, h, m)|
    ensures x < |Run(data, h, n)| && Run(data, h, n)[x] == Run(data, h, m)[x]
  {
    if m < n {
      RunKeeps(data, h, m, n - 1, x);
      RunPrefix(data, h, n, x);
    }
  }

  /** Appending a super-row leaves the bytes already in the run in place. */
  lemma {:induction false} RunPrefix(data: seq<Byte>, h: Half, n: nat, x: nat)
    requires n > 0 && x < |Run(data, h, n - 1)|
    ensures x < |Run(data, h, n)| && Run(data, h, n)[x] == Run(data, h, n - 1)[x]
  {
    var front, last := Run(data, h, n - 1), SuperRow(data, HalfRow(h, n - 1));
    assert Run(data, h, n) == front + last;
    assert (front + last)[x] == front[x];
  }

  /** With the whole frame present, byte t of the last super-row of a run of i + 1 is byte t of super-row `HalfRow(h, i)`. */
  lemma {:induction false} RunLast(data: seq<Byte>, h: Half, i: nat, t: nat)
    requires i < Count(h) && |data| >= FrameRows(h) * 1536 && t < 1536
    ensures 1536 * i + t < |Run(data, h, i + 1)|
    ensures 1536 * HalfRow(h, i) + t < |data|
    ensures Run(data, h, i + 1)[1536 * i + t] == data[1536 * HalfRow(h, i) + t]
  {
    HalfRowInFrame(h, i);
    RunLength(data, h, i);
    AppendRow(Run(data, h, i), data, HalfRow(h, i), t);
  }

  /** Byte t of a whole super-row appended to some bytes lands right after them. */
  lemma AppendRow(front: seq<Byte>, data: seq<Byte>, k: nat, t: nat)
    requires (k + 1) * 1536 <= |data| && t < 1536
    ensures |front| + t < |front + SuperRow(data, k)| && 1536 * k + t < |data|
    ensures (front + SuperRow(data, k))[|front| + t] == data[1536 * k + t]
  {
    assert SuperRow(data, k) == data[k * 1536 .. (k + 1) * 1536];
  }

  /** A super-row of the run that the data does not hold in full makes the run fall short. */
  lemma {:induction false} RunShort(data: seq<Byte>, h: Half, n: nat, i: nat)
    requires i < n && (HalfRow(h, i) + 1) * 1536 > |data|
    ensures |Run(data, h, n)| < 1536 * n
  {
    if i < n - 1 {
      RunShort(data, h, n - 1, i);
      SuperRowLength(data, HalfRow(h, n - 1));
    } else {
      RunShortLast(data, h, i);
    }
  }

  /** A run whose last super-row is not held in full falls short. */
  lemma {:induction false} RunShortLast(data: seq<Byte>, h: Half, i: nat)
    requires (HalfRow(h, i) + 1) * 1536 > |data|
    ensures |Run(data, h, i + 1)| < 1536 * (i + 1)
  {
    RunBound(data, h, i);
    SuperRowLength(data, HalfRow(h, i));
  }

  /** A run of n super-rows holds at most 1536 n bytes. */
  lemma {:induction false} RunBound(data: seq<Byte>, h: Half, n: nat)
    ensures |Run(data, h, n)| <= 1536 * n
  {
    if n > 0 {
      RunBound(data, h, n - 1);
      SuperRowLength(data, HalfRow(h, n - 1));
    }
  }

  // ---------------------------------------------------------------- ePix100a

  /** The bytes `_descrambleEPix100aImageAsByteArray` returns for the data after the header: super-rows 707, 705, ..., 1, then 0, 2, ..., 706. */
  function Interleave100a(data: seq<Byte>): seq<Byte>
  {
    Run(data, Top100a, 354) + Run(data, Bottom100a, 354)
  }

  /** The super-row that becomes row r of the descrambled ePix100a image. */
  function Order100a(): (o: seq<nat>)
    ensures |o| == Height100a
  {
    seq(Height100a, r requires 0 <= r < Height100a => if r < 354 then 707 - 2 * r else 2 * (r - 354))
  }

  /** The row of the descrambled image that super-row k becomes. */
  function Position100a(k: nat): nat
    requires k < Height100a
  {
    if k % 2 == 1 then (707 - k) / 2 else 354 + k / 2
  }

  /** The ePix100a order is a permutation of the 708 super-rows, with `Position100a` its inverse. */
  lemma Order100aIsPermutation()
    ensures forall r :: 0 <= r < Height100a ==> Order100a()[r] < Height100a && Position100a(Order100a()[r]) == r
    ensures forall k :: 0 <= k < Height100a ==> Position100a(k) < Height100a && Order100a()[Position100a(k)] == k
  {
    var o := Order100a();
    forall k | 0 <= k < Height100a
      ensures Position100a(k) < Height100a && o[Position100a(k)] == k
    {
      if k % 2 == 1 {
        assert o[(707 - k) / 2] == 707 - 2 * ((707 - k) / 2);
      } else {
        assert o[354 + k / 2] == 2 * (k / 2);
      }
    }
  }

  /**
   * `_descrambleEPix100aImageAsByteArray`: the 32 header bytes are popped from
   * the caller's buffer, then for j = 0 .. 707 super-row 708 - j is appended to
   * the top half when j is odd and super-row j to the bottom half when j is
   * even; the result is the top half followed by the bottom half.
   */
  method Descramble100aBytes(buf: ByteBuffer) returns (res: Result<seq<Byte>>)
    modifies buf
    ensures |old(buf.bytes)| < HeaderBytes ==> res == Err(IndexError) && buf.bytes == []
    ensures |old(buf.bytes)| >= HeaderBytes ==> buf.bytes == old(buf.bytes)[HeaderBytes..] && res == Ok(Interleave100a(buf.bytes))
  {
    var ok := buf.DropHeader(HeaderBytes);
    if !ok {
      return Err(IndexError);
    }
    var desc := Gather100a(buf.bytes);
    res := Ok(desc);
  }

  /** The top half after the first j passes of the gather loop: super-row 708 - i for every odd i < j. */
  function Top100aSoFar(data: seq<Byte>, j: nat): seq<Byte>
    requires j <= Height100a
  {
    if j == 0 then []
    else if (j - 1) % 2 == 1 then Top100aSoFar(data, j - 1) + SuperRow(data, Height100a - (j - 1))
    else Top100aSoFar(data, j - 1)
  }

  /** The bottom half after the first j passes of the gather loop: super-row i for every even i < j. */
  function Bottom100aSoFar(data: seq<Byte>, j: nat): seq<Byte>
  {
    if j == 0 then []
    else if (j - 1) % 2 == 0 then Bottom100aSoFar(data, j - 1) + SuperRow(data, j - 1)
    else Bottom100aSoFar(data, j - 1)
  }

  /** An even pass j and the odd pass j + 1 after it: only the odd one feeds the top half. */
  lemma Top100aPasses(data: seq<Byte>, j: nat)
    requires j + 2 <= Height100a && j % 2 == 0
    ensures Top100aSoFar(data, j + 2) == Top100aSoFar(data, j) + SuperRow(data, Height100a - (j + 1))
  {
    assert Top100aSoFar(data, j + 1) == Top100aSoFar(data, j);
  }

  /** After 2 m passes the top half holds the first m super-rows 707, 705, ... */
  lemma {:induction false} Top100aSoFarIsRun(data: seq<Byte>, m: nat)
    requires m <= 354
    ensures Top100aSoFar(data, m + m) == Run(data, Top100a, m)
  {
    if m > 0 {
      Top100aSoFarIsRun(data, m - 1);
      Top100aStep(data, m);
    }
  }

  /** The two passes that take the top half from m - 1 to m super-rows append `HalfRow(Top100a, m - 1)`. */
  lemma Top100aStep(data: seq<Byte>, m: nat)
    requires 1 <= m <= 354
    ensures Top100aSoFar(data, m + m) == Top100aSoFar(data, (m - 1) + (m - 1)) + SuperRow(data, HalfRow(Top100a, m - 1))
  {
    var j := (m - 1) + (m - 1);
    assert j + 2 == m + m;
    assert Height100a - (j + 1) == HalfRow(Top100a, m - 1);
    Top100aPasses(data, j);
  }

  /** An even pass j and the odd pass j + 1 after it: only the even one feeds the bottom half. */
  lemma Bottom100aPasses(data: seq<Byte>, j: nat)
    requires j % 2 == 0
    ensures Bottom100aSoFar(data, j + 2) == Bottom100aSoFar(data, j) + SuperRow(data, j)
  {
    assert Bottom100aSoFar(data, j + 2) == Bottom100aSoFar(data, j + 1);
  }

  /** After 2 m passes the bottom half holds the first m super-rows 0, 2, ... */
  lemma {:induction false} Bottom100aSoFarIsRun(data: seq<Byte>, m: nat)
    ensures Bottom100aSoFar(data, m + m) == Run(data, Bottom100a, m)
  {
    if m > 0 {
      Bottom100aSoFarIsRun(data, m - 1);
      Bottom100aStep(data, m);
    }
  }

  /** The two passes that take the bottom half from m - 1 to m super-rows append `HalfRow(Bottom100a, m - 1)`. */
  lemma Bottom100aStep(data: seq<Byte>, m: nat)
    requires 1 <= m
    ensures Bottom100aSoFar(data, m + m) == Bottom100aSoFar(data, (m - 1) + (m - 1)) + SuperRow(data, HalfRow(Bottom100a, m - 1))
  {
    var j := (m - 1) + (m - 1);
    Bottom100aPasses(data, j);
    assert j + 2 == m + m && j == HalfRow(Bottom100a, m - 1);
  }

  /** The gather loop of `_descrambleEPix100aImageAsByteArray`. */
  method Gather100a(data: seq<Byte>) returns (desc: seq<Byte>)
    ensures desc == Interleave100a(data)
  {
    var top: seq<Byte> := [];
    var bot: seq<Byte> := [];
    var j := 0;
    while j < Height100a
      invariant j <= Height100a
      invariant top == Top100aSoFar(data, j)
      invariant bot == Bottom100aSoFar(data, j)
    {
      if j % 2 == 1 {
        top := top + SuperRow(data, Height100a - j);
      } else {
        bot := bot + SuperRow(data, j);
      }
      j := j + 1;
    }
    Top100aSoFarIsRun(data, 354);
    Bottom100aSoFarIsRun(data, 354);
    desc := top + bot;
  }

  /** The unsigned 16-bit value of a little-endian byte pair. */
  function Pair(lo: Byte, hi: Byte): (u: nat)
    ensures u < 0x1_0000
  {
    lo as int + 256 * (hi as int)
  }

  /** `np.frombuffer(b, dtype='int16')`: little-endian byte pairs as signed 16-bit values. */
  function Int16s(b: seq<Byte>): (v: seq<int>)
    requires |b| % 2 == 0
    ensures |v| == |b| / 2
    ensures forall i :: 0 <= i < |v| ==> 2 * i + 1 < |b| && -0x8000 <= v[i] < 0x8000 && (v[i] - Pair(b[2 * i], b[2 * i + 1])) % 0x1_0000 == 0
  {
    seq(|b| / 2, i requires 0 <= i < |b| / 2 => Int16(Pair(b[2 * i], b[2 * i + 1])))
  }

  /** Value p of `Int16s(b)` is the int16 of byte pair p. */
  lemma Int16sAt(b: seq<Byte>, p: nat)
    requires |b| % 2 == 0 && 2 * p + 1 < |b|
    ensures p < |Int16s(b)| && Int16s(b)[p] == Int16(Pair(b[2 * p], b[2 * p + 1]))
  {
  }

  /** What `_descrambleEPix100aImage` returns: the flat pixels when their count is wrong, else a 708 x 768 image. */
  datatype Image100a = Flat(pixels: seq<int>) | Shaped(image: Matrix<int>)

  /**
   * `_descrambleEPix100aImage` on the caller's bytes: a short buffer fails
   * in the header pops, an odd byte count in `frombuffer`, and a pixel count
   * other than 708 x 768 is returned flat.
   */
  function Epix100aImage(payload: seq<Byte>): (res: Result<Image100a>)
    ensures |payload| < HeaderBytes <==> res == Err(IndexError)
    ensures res.Ok? && res.value.Shaped? ==> IsMatrix(res.value.image, Height100a, Width100a)
  {
    if |payload| < HeaderBytes then Err(IndexError)
    else
      var desc := Interleave100a(payload[HeaderBytes..]);
      if |desc| % 2 != 0 then Err(ReshapeError)
      else
        var px := Int16s(desc);
        if |px| != Height100a * Width100a then Ok(Flat(px))
        else Ok(Shaped(Reshape(px, Height100a, Width100a)))
  }

  /**
   * A payload is reshaped exactly when it holds all 708 super-rows after
   * the header.
   */
  lemma Epix100aShaped(payload: seq<Byte>)
    ensures Epix100aImage(payload).Ok? && Epix100aImage(payload).value.Shaped? <==>
            |payload| >= HeaderBytes + Height100a * 1536
  {
    if |payload| >= HeaderBytes {
      var data := payload[HeaderBytes..];
      if |data| >= Height100a * 1536 {
        Full100a(data);
      } else {
        Short100a(data);
      }
    }
  }

  /** Data missing part of the 708 super-rows gathers to fewer than 708 super-rows of bytes. */
  lemma Short100a(data: seq<Byte>)
    requires |data| < Height100a * 1536
    ensures |Interleave100a(data)| < Height100a * 1536
  {
    var k := |data| / 1536;
    assert (k + 1) * 1536 > |data|;
    RunBound(data, Top100a, 354);
    RunBound(data, Bottom100a, 354);
    if k % 2 == 1 {
      var i := (707 - k) / 2;
      assert HalfRow(Top100a, i) == k;
      RunShort(data, Top100a, 354, i);
    } else {
      var i := k / 2;
      assert HalfRow(Bottom100a, i) == k;
      RunShort(data, Bottom100a, 354, i);
    }
  }

  /** Both runs of a data run holding all 708 super-rows are whole, so the interleaved bytes are 708 super-rows long. */
  lemma Full100a(data: seq<Byte>)
    requires |data| >= Height100a * 1536
    ensures |Interleave100a(data)| == Height100a * 1536
  {
    RunLength(data, Top100a, 354);
    RunLength(data, Bottom100a, 354);
  }

  /** With all 708 super-rows present, byte t of gathered super-row r is byte t of super-row `Order100a()[r]`. */
  lemma {:induction false} Interleave100aAt(data: seq<Byte>, r: nat, t: nat)
    requires |data| >= Height100a * 1536
    requires r < Height100a && t < 1536
    ensures |Interleave100a(data)| == Height100a * 1536 && 1536 * r + t < Height100a * 1536
    ensures 1536 * Order100a()[r] + t < |data|
    ensures Interleave100a(data)[1536 * r + t] == data[1536 * Order100a()[r] + t]
  {
    Full100a(data);
    Order100aAt(r);
    if r < 354 {
      Top100aAt(data, r, t);
    } else {
      Bottom100aAt(data, r - 354, t);
    }
  }

  /** Row r of the ePix100a order is the r-th super-row of the top half, then of the bottom half. */
  lemma Order100aAt(r: nat)
    requires r < Height100a
    ensures Order100a()[r] == if r < 354 then HalfRow(Top100a, r) else HalfRow(Bottom100a, r - 354)
  {
  }

  /** The first 354 x 1536 gathered bytes come from the top half's run. */
  lemma {:induction false} Top100aAt(data: seq<Byte>, i: nat, t: nat)
    requires |data| >= Height100a * 1536
    requires i < 354 && t < 1536
    ensures 1536 * i + t < |Interleave100a(data)| && 1536 * HalfRow(Top100a, i) + t < |data|
    ensures Interleave100a(data)[1536 * i + t] == data[1536 * HalfRow(Top100a, i) + t]
  {
    RunAt(data, Top100a, 354, i, t);
    ConcatFront(Run(data, Top100a, 354), Run(data, Bottom100a, 354), 1536 * i + t);
  }

  /** The gathered bytes after the top half come from the bottom half's run. */
  lemma {:induction false} Bottom100aAt(data: seq<Byte>, i: nat, t: nat)
    requires |data| >= Height100a * 1536
    requires i < 354 && t < 1536
    ensures 1536 * (354 + i) + t < |Interleave100a(data)| && 1536 * HalfRow(Bottom100a, i) + t < |data|
    ensures Interleave100a(data)[1536 * (354 + i) + t] == data[1536 * HalfRow(Bottom100a, i) + t]
  {
    RunLength(data, Top100a, 354);
    RunAt(data, Bottom100a, 354, i, t);
    ConcatBack(Run(data, Top100a, 354), Run(data, Bottom100a, 354), 1536 * i + t);
  }

  /** The two bytes of pixel (r, c) of the gathered data: bytes 2 c and 2 c + 1 of super-row `Order100a()[r]`. */
  lemma Interleave100aPair(data: seq<Byte>, r: nat, c: nat)
    requires |data| >= Height100a * 1536
    requires r < Height100a && c < Width100a
    ensures var p := r * Width100a + c;
            2 * p + 1 < |Interleave100a(data)| &&
            1536 * Order100a()[r] + 2 * c + 1 < |data| &&
            Interleave100a(data)[2 * p] == data[1536 * Order100a()[r] + 2 * c] &&
            Interleave100a(data)[2 * p + 1] == data[1536 * Order100a()[r] + 2 * c + 1]
  {
    assert 2 * (r * Width100a + c) == 1536 * r + 2 * c;
    Interleave100aAt(data, r, 2 * c);
    Interleave100aAt(data, r, 2 * c + 1);
  }

  /** A payload holding all 708 super-rows is reshaped into the 708 x 768 int16 image. */
  lemma Epix100aFull(payload: seq<Byte>)
    requires |payload| >= HeaderBytes + Height100a * 1536
    ensures var desc := Interleave100a(payload[HeaderBytes..]);
            |desc| == Height100a * 1536 &&
            Epix100aImage(payload) == Ok(Shaped(Reshape(Int16s(desc), Height100a, Width100a)))
  {
    Full100a(payload[HeaderBytes..]);
  }

  /** Pixel (r, c) of a full ePix100a image is int16 number 768 r + c of the gathered bytes. */
  lemma Epix100aCell(payload: seq<Byte>, r: nat, c: nat)
    requires |payload| >= HeaderBytes + Height100a * 1536
    requires r < Height100a && c < Width100a
    ensures var desc := Interleave100a(payload[HeaderBytes..]);
            var p := r * Width100a + c;
            Epix100aImage(payload).Ok? && Epix100aImage(payload).value.Shaped? &&
            |desc| == Height100a * 1536 && p < |Int16s(desc)| &&
            Epix100aImage(payload).value.image[r][c] == Int16s(desc)[p]
  {
    Epix100aFull(payload);
    CellIndex(r, c, Height100a, Width100a);
  }

  /**
   * Pixel (r, c) of a full ePix100a image is the int16 at byte 2 c of
   * super-row 707 - 2 r (r < 354) or 2 (r - 354) after the header.
   */
  lemma Epix100aPixel(payload: seq<Byte>, r: nat, c: nat)
    requires |payload| >= HeaderBytes + Height100a * 1536
    requires r < Height100a && c < Width100a
    ensures Epix100aImage(payload).Ok? && Epix100aImage(payload).value.Shaped?
    ensures var k := if r < 354 then 707 - 2 * r else 2 * (r - 354);
            var at := HeaderBytes + 1536 * k + 2 * c;
            at + 1 < |payload| &&
            Epix100aImage(payload).value.image[r][c] == Int16(Pair(payload[at], payload[at + 1]))
  {
    Epix100aCell(payload, r, c);
    PixelBytes100a(payload, r, c);
  }

  /** Int16 number 768 r + c of the gathered bytes comes from bytes 2 c and 2 c + 1 of super-row 707 - 2 r or 2 (r - 354) after the header. */
  lemma PixelBytes100a(payload: seq<Byte>, r: nat, c: nat)
    requires |payload| >= HeaderBytes + Height100a * 1536
    requires r < Height100a && c < Width100a
    ensures var desc := Interleave100a(payload[HeaderBytes..]);
            var k := if r < 354 then 707 - 2 * r else 2 * (r - 354);
            var at := HeaderBytes + 1536 * k + 2 * c;
            var p := r * Width100a + c;
            |desc| == Height100a * 1536 && p < |Int16s(desc)| && at + 1 < |payload| &&
            Int16s(desc)[p] == Int16(Pair(payload[at], payload[at + 1]))
  {
    var data := payload[HeaderBytes..];
    var x := 1536 * (if r < 354 then 707 - 2 * r else 2 * (r - 354)) + 2 * c;
    assert 1536 * Order100a()[r] + 2 * c == x;
    Interleave100aInt16(data, r, c);
    DropAt(payload, HeaderBytes, x);
    DropAt(payload, HeaderBytes, x + 1);
  }

  /** Byte x after the first d bytes is byte d + x. */
  lemma DropAt(s: seq<Byte>, d: nat, x: nat)
    requires d + x < |s|
    ensures s[d..][x] == s[d + x]
  {
  }

  /** Int16 number 768 r + c of the gathered bytes comes from bytes 2 c and 2 c + 1 of super-row `Order100a()[r]`. */
  lemma Interleave100aInt16(data: seq<Byte>, r: nat, c: nat)
    requires |data| >= Height100a * 1536
    requires r < Height100a && c < Width100a
    ensures var desc := Interleave100a(data);
            var x := 1536 * Order100a()[r] + 2 * c;
            var p := r * Width100a + c;
            |desc| == Height100a * 1536 && p < |Int16s(desc)| && x + 1 < |data| &&
            Int16s(desc)[p] == Int16(Pair(data[x], data[x + 1]))
  {
    Full100a(data);
    Interleave100aPair(data, r, c);
    Int16sAt(Interleave100a(data), r * Width100a + c);
  }

  /** `DataReceiverEpix100a.descramble`: a fresh `bytearray` of the payload, descrambled. */
  method Descramble100a(payload: seq<Byte>) returns (res: Result<Image100a>)
    ensures res == Epix100aImage(payload)
  {
    var buf := new ByteBuffer(payload);
    var bytes := Descramble100aBytes(buf);
    if bytes.Err? {
      return Err(bytes.fault);
    }
    var desc := bytes.value;
    if |desc| % 2 != 0 {
      return Err(ReshapeError);
    }
    var px := Int16s(desc);
    if |px| != Height100a * Width100a {
      return Ok(Flat(px));
    }
    res := Ok(Shaped(Reshape(px, Height100a, Width100a)));
  }

  // ---------------------------------------------------------------- ePix100p

  /**
   * The bytes of the ePix100p image for the data after the header: the
   * bottom half (super-row 0, then 3, 5, ..., 705) followed by the top half
   * (super-row 1, then 2, 4, ..., 704).
   */
  function Interleave100p(data: seq<Byte>): seq<Byte>
  {
    Run(data, Bottom100p, 353) + Run(data, Top100p, 353)
  }

  /** The super-row that becomes row i of the descrambled ePix100p image. */
  function Order100p(): (o: seq<nat>)
    ensures |o| == Rows100p
  {
    seq(Rows100p, i requires 0 <= i < Rows100p =>
      if i == 0 then 0 else if i < 353 then 3 + 2 * (i - 1) else if i == 353 then 1 else 2 + 2 * (i - 354))
  }

  /** The row of the descrambled image that super-row k becomes. */
  function Position100p(k: nat): nat
  {
    if k == 0 then 0
    else if k == 1 then 353
    else if k % 2 == 1 then 1 + (k - 3) / 2
    else 354 + (k - 2) / 2
  }

  /** The ePix100p order is a permutation of the 706 super-rows, with `Position100p` its inverse. */
  lemma Order100pIsPermutation()
    ensures forall i :: 0 <= i < Rows100p ==> Order100p()[i] < Rows100p && Position100p(Order100p()[i]) == i
    ensures forall k :: 0 <= k < Rows100p ==> Position100p(k) < Rows100p && Order100p()[Position100p(k)] == k
  {
    var o := Order100p();
    forall k | 0 <= k < Rows100p
      ensures Position100p(k) < Rows100p && o[Position100p(k)] == k
    {
      if k >= 2 && k % 2 == 1 {
        assert o[1 + (k - 3) / 2] == 3 + 2 * ((k - 3) / 2);
      } else if k >= 2 {
        assert o[354 + (k - 2) / 2] == 2 + 2 * ((k - 2) / 2);
      }
    }
  }

  /**
   * `DataReceiverEpix100p.descramble`: the 32 header bytes are popped from
   * the frame, super-row 0 starts the bottom half and super-row 1 the top
   * half, then for j = 2 .. 705 odd super-rows go to the bottom and even ones
   * to the top; the result is the bottom half followed by the top half.
   */
  method Descramble100p(buf: ByteBuffer) returns (res: Result<seq<Byte>>)
    modifies buf
    ensures |old(buf.bytes)| < HeaderBytes ==> res == Err(IndexError) && buf.bytes == []
    ensures |old(buf.bytes)| >= HeaderBytes ==> buf.bytes == old(buf.bytes)[HeaderBytes..] && res == Ok(Interleave100p(buf.bytes))
  {
    var ok := buf.DropHeader(HeaderBytes);
    if !ok {
      return Err(IndexError);
    }
    var desc := Gather100p(buf.bytes);
    res := Ok(desc);
  }

  /** The bottom half after the passes j = 2 .. n - 1 of the gather loop: super-row 0, then every odd super-row below n. */
  function Bottom100pSoFar(data: seq<Byte>, n: nat): seq<Byte>
  {
    if n <= 2 then SuperRow(data, 0)
    else if (n - 1) % 2 == 1 then Bottom100pSoFar(data, n - 1) + SuperRow(data, n - 1)
    else Bottom100pSoFar(data, n - 1)
  }

  /** The top half after the passes j = 2 .. n - 1 of the gather loop: super-row 1, then every even super-row from 2 below n. */
  function Top100pSoFar(data: seq<Byte>, n: nat): seq<Byte>
  {
    if n <= 2 then SuperRow(data, 1)
    else if (n - 1) % 2 == 0 then Top100pSoFar(data, n - 1) + SuperRow(data, n - 1)
    else Top100pSoFar(data, n - 1)
  }

  /** Passes 2 q - 2 and 2 q - 1 of the gather loop, the odd one feeding the bottom half its q-th super-row. */
  lemma Bottom100pStep(data: seq<Byte>, q: nat)
    requires 2 <= q
    ensures Bottom100pSoFar(data, q + q) == Bottom100pSoFar(data, (q - 1) + (q - 1)) + SuperRow(data, HalfRow(Bottom100p, q - 1))
  {
    var j := (q - 1) + (q - 1);
    assert j % 2 == 0 && (j + 1) % 2 == 1 && j + 2 == q + q && j + 1 == HalfRow(Bottom100p, q - 1);
    assert Bottom100pSoFar(data, j + 1) == Bottom100pSoFar(data, j);
  }

  /** After the passes below 2 q the bottom half holds the first q super-rows 0, 3, 5, ... */
  lemma {:induction false} Bottom100pSoFarIsRun(data: seq<Byte>, q: nat)
    requires 1 <= q
    ensures Bottom100pSoFar(data, q + q) == Run(data, Bottom100p, q)
  {
    if q == 1 {
      assert Run(data, Bottom100p, 1) == [] + SuperRow(data, 0);
    } else {
      Bottom100pSoFarIsRun(data, q - 1);
      Bottom100pStep(data, q);
    }
  }

  /** Passes 2 q - 2 and 2 q - 1 of the gather loop, the even one feeding the top half its q-th super-row. */
  lemma Top100pStep(data: seq<Byte>, q: nat)
    requires 2 <= q
    ensures Top100pSoFar(data, q + q) == Top100pSoFar(data, (q - 1) + (q - 1)) + SuperRow(data, HalfRow(Top100p, q - 1))
  {
    var j := (q - 1) + (q - 1);
    assert j % 2 == 0 && (j + 1) % 2 == 1 && j + 2 == q + q && j == HalfRow(Top100p, q - 1);
    assert Top100pSoFar(data, j + 2) == Top100pSoFar(data, j + 1);
  }

  /** After the passes below 2 q the top half holds the first q super-rows 1, 2, 4, ... */
  lemma {:induction false} Top100pSoFarIsRun(data: seq<Byte>, q: nat)
    requires 1 <= q
    ensures Top100pSoFar(data, q + q) == Run(data, Top100p, q)
  {
    if q == 1 {
      assert Run(data, Top100p, 1) == [] + SuperRow(data, 1);
    } else {
      Top100pSoFarIsRun(data, q - 1);
      Top100pStep(data, q);
    }
  }

  /** The gather loop of `DataReceiverEpix100p.descramble`. */
  method Gather100p(data: seq<Byte>) returns (desc: seq<Byte>)
    ensures desc == Interleave100p(data)
  {
    var bot := SuperRow(data, 0);
    var top := SuperRow(data, 1);
    var j := 2;
    while j < Rows100p
      invariant 2 <= j <= Rows100p
      invariant bot == Bottom100pSoFar(data, j)
      invariant top == Top100pSoFar(data, j)
    {
      if j % 2 == 1 {
        bot := bot + SuperRow(data, j);
      } else {
        top := top + SuperRow(data, j);
      }
      j := j + 1;
    }
    Bottom100pSoFarIsRun(data, 353);
    Top100pSoFarIsRun(data, 353);
    desc := bot + top;
  }

  /** A frame holding all 706 super-rows after the header yields 706 x 1536 bytes, byte t of row i from super-row `Order100p()[i]`. */
  lemma {:induction false} Epix100pFullFrame(data: seq<Byte>, i: nat, t: nat)
    requires |data| >= Rows100p * 1536 && i < Rows100p && t < 1536
    ensures |Interleave100p(data)| == Rows100p * 1536
    ensures 1536 * Order100p()[i] + t < |data|
    ensures Interleave100p(data)[1536 * i + t] == data[1536 * Order100p()[i] + t]
  {
    RunLength(data, Bottom100p, 353);
    RunLength(data, Top100p, 353);
    Order100pAt(i);
    if i < 353 {
      Bottom100pAt(data, i, t);
    } else {
      Top100pAt(data, i - 353, t);
    }
  }

  /** Row i of the ePix100p order is the i-th super-row of the bottom half, then of the top half. */
  lemma Order100pAt(i: nat)
    requires i < Rows100p
    ensures Order100p()[i] == if i < 353 then HalfRow(Bottom100p, i) else HalfRow(Top100p, i - 353)
  {
  }

  /** The first 353 x 1536 gathered bytes come from the bottom half's run. */
  lemma {:induction false} Bottom100pAt(data: seq<Byte>, i: nat, t: nat)
    requires |data| >= Rows100p * 1536
    requires i < 353 && t < 1536
    ensures 1536 * i + t < |Interleave100p(data)| && 1536 * HalfRow(Bottom100p, i) + t < |data|
    ensures Interleave100p(data)[1536 * i + t] == data[1536 * HalfRow(Bottom100p, i) + t]
  {
    RunAt(data, Bottom100p, 353, i, t);
    ConcatFront(Run(data, Bottom100p, 353), Run(data, Top100p, 353), 1536 * i + t);
  }

  /** The gathered bytes after the bottom half come from the top half's run. */
  lemma {:induction false} Top100pAt(data: seq<Byte>, i: nat, t: nat)
    requires |data| >= Rows100p * 1536
    requires i < 353 && t < 1536
    ensures 1536 * (353 + i) + t < |Interleave100p(data)| && 1536 * HalfRow(Top100p, i) + t < |data|
    ensures Interleave100p(data)[1536 * (353 + i) + t] == data[1536 * HalfRow(Top100p, i) + t]
  {
    RunLength(data, Bottom100p, 353);
    RunAt(data, Top100p, 353, i, t);
    ConcatBack(Run(data, Bottom100p, 353), Run(data, Top100p, 353), 1536 * i + t);
  }

  /** Indexing the front of a concatenation. */
  lemma ConcatFront(a: seq<Byte>, b: seq<Byte>, x: nat)
    requires x < |a|
    ensures x < |a + b| && (a + b)[x] == a[x]
  {
  }

  /** Indexing the back of a concatenation. */
  lemma ConcatBack(a: seq<Byte>, b: seq<Byte>, x: nat)
    requires x < |b|
    ensures |a| + x < |a + b| && (a + b)[|a| + x] == b[x]
  {
  }
}
