/**
 * The per-frame analysis every image receiver runs on a descrambled frame:
 * dark-frame collection and subtraction, the crosshair drawn into the
 * displayed copy, the cursor pixel's time plot, the bounded buffers behind
 * the histogram, the automatic contrast and the noise colormap, and the
 * histogram itself.  One class models both copies of the base receiver;
 * `legacy` selects the older one.
 */
module Analysis {
  import opened Common
  import opened Deques
  import opened Histograms
  import Bits

  /** A descrambled frame; dark subtraction makes its pixels fractional. */
  type Image = Matrix<real>

  const QueueCap: nat := 50000
  const ImageCap: nat := 30
  const NoiseCap: nat := 1000
  const TimePlotCap: nat := 1000

  /** `-sys.maxsize - 1` on a 64-bit build: the value the crosshair stores. */
  const CrossHairVal: int := Bits.Min64

  /** How a view stores a number: numpy's float64, or an integer cell of some width. */
  datatype Cell = FloatCell | IntCell(bits: Bits.Width, signed: bool)

  /**
   * What a cell holds once `CrossHairVal` is stored into it: a float64 cell
   * keeps it, an integer cell keeps it modulo its width as numpy before 2.0
   * does (0 in any cell narrower than 64 bits).
   */
  function Mark(k: Cell): real
  {
    match k
    case FloatCell => CrossHairVal as real
    case IntCell(w, signed) => Bits.StoredMin64(w, signed) as real
  }

  /**
   * The crosshair keeps `-sys.maxsize - 1` in a float64 view and in an
   * int64 one, wraps to 2^63 in a uint64 one, and leaves 0 in any narrower
   * integer view.
   */
  lemma MarkStored(k: Cell)
    ensures k.FloatCell? ==> Mark(k) == CrossHairVal as real
    ensures k.IntCell? && k.bits < 64 ==> Mark(k) == 0.0
    ensures k.IntCell? && k.bits == 64 ==> Mark(k) == if k.signed then CrossHairVal as real else -CrossHairVal as real
  {
    if k.IntCell? && k.bits == 64 {
      Bits.Pow2Of63();
    }
  }

  // ---------------------------------------------------------------- dark frames

  predicate SameShape(a: Image, b: Image)
  {
    |a| == |b| && forall r :: 0 <= r < |a| ==> |a[r]| == |b[r]|
  }

  /** A 1 x 1 array, which numpy broadcasts over any image. */
  predicate Scalar(m: Image)
  {
    |m| == 1 && |m[0]| == 1
  }

  /**
   * `np.intc(img) - dark`: a 1 x 1 dark is subtracted from every pixel, a
   * dark of the image's shape pixel by pixel, and any other shape fails to
   * broadcast.
   */
  function Subtract(img: Image, dark: Image): (r: Result<Image>)
    ensures r.Err? <==> !Scalar(dark) && !SameShape(img, dark)
    ensures r.Ok? ==> SameShape(r.value, img)
  {
    if Scalar(dark) then
      Ok(seq(|img|, i requires 0 <= i < |img| => seq(|img[i]|, j requires 0 <= j < |img[i]| => img[i][j] - dark[0][0])))
    else if SameShape(img, dark) then
      Ok(seq(|img|, i requires 0 <= i < |img| => seq(|img[i]|, j requires 0 <= j < |img[i]| => img[i][j] - dark[i][j])))
    else Err(ReshapeError)
  }

  /** Every frame has the shape of the first. */
  predicate Uniform(frames: seq<Image>)
  {
    |frames| > 0 && forall k :: 0 <= k < |frames| ==> SameShape(frames[k], frames[0])
  }

  /** `np.array(frames)` forms one array: there are no frames, or all have one shape. */
  predicate Stacks(frames: seq<Image>)
  {
    frames == [] || Uniform(frames)
  }

  /** The sum over the frames of pixel (r, c). */
  function PixelSum(frames: seq<Image>, r: nat, c: nat): real
    requires forall k :: 0 <= k < |frames| ==> r < |frames[k]| && c < |frames[k][r]|
  {
    if frames == [] then 0.0 else PixelSum(frames[..|frames| - 1], r, c) + frames[|frames| - 1][r][c]
  }

  /**
   * `np.mean(np.array(np.intc(DarkImg)), axis = 0)`: the pixel-wise average.
   * Of no frames numpy gives NaN, which the model stands in for by the
   * placeholder; frames of different shapes do not form an array.
   */
  function DarkMean(frames: seq<Image>, placeholder: real): (r: Result<Image>)
    ensures r.Err? <==> frames != [] && !Uniform(frames)
    ensures frames == [] ==> r == Ok([[placeholder]])
    ensures r.Ok? && frames != [] ==> SameShape(r.value, frames[0])
  {
    if frames == [] then Ok([[placeholder]])
    else if !Uniform(frames) then Err(ReshapeError)
    else
      var f := frames[0];
      Ok(seq(|f|, r requires 0 <= r < |f| => seq(|f[r]|, c requires 0 <= c < |f[r]| =>
           PixelSum(frames, r, c) / (|frames| as real))))
  }

  /** `n` copies of a pixel add up to `n` times it. */
  lemma {:induction false} PixelSumCopies(f: Image, n: nat, r: nat, c: nat)
    requires r < |f| && c < |f[r]|
    ensures PixelSum(seq(n, _ => f), r, c) == (n as real) * f[r][c]
  {
    if n > 0 {
      assert seq(n, _ => f)[..n - 1] == seq(n - 1, _ => f);
      PixelSumCopies(f, n - 1, r, c);
    }
  }

  /** The average of `n > 0` copies of a frame is that frame. */
  lemma MeanOfCopies(f: Image, n: nat, placeholder: real)
    requires n > 0
    ensures DarkMean(seq(n, _ => f), placeholder) == Ok(f)
  {
    var frames := seq(n, _ => f);
    assert frames[0] == f;
    assert Uniform(frames);
    var m := DarkMean(frames, placeholder).value;
    assert |m| == |f|;
    forall r | 0 <= r < |f|
      ensures m[r] == f[r]
    {
      assert |m[r]| == |f[r]|;
      forall c | 0 <= c < |f[r]|
        ensures m[r][c] == f[r][c]
      {
        PixelSumCopies(f, n, r, c);
        assert m[r][c] == PixelSum(frames, r, c) / (n as real);
      }
    }
    assert m == f;
  }

  /** The dark-collection variables: CollectDark, DarkReady, DarkImg, numDarkCol and AvgDark. */
  datatype DarkState = DarkState(collect: bool, ready: bool, frames: seq<Image>, count: int, avg: Image)

  /**
   * One frame of dark collection.  A request made while a dark is ready
   * first discards it; then the frame is stored while the stored count
   * differs from the requested one, and once they agree the frame is not
   * stored but the average is published and the request ends.
   */
  function DarkStep(s: DarkState, requested: int, raw: Image, placeholder: real): Result<DarkState>
  {
    if !s.collect then Ok(s)
    else
      var s1 := if s.ready then DarkState(true, false, [], 0, [[placeholder]]) else s;
      if requested != s1.count then Ok(s1.(frames := s1.frames + [raw], count := s1.count + 1))
      else
        match DarkMean(s1.frames, placeholder)
        case Err(f) => Err(f)
        case Ok(m) => Ok(s1.(avg := m, ready := true, collect := false))
  }

  /** Dark collection over a run of frames, stopping at the first failure. */
  function DarkRun(s: DarkState, requested: int, imgs: seq<Image>, placeholder: real): Result<DarkState>
    decreases |imgs|
  {
    if imgs == [] then Ok(s)
    else
      match DarkStep(s, requested, imgs[0], placeholder)
      case Err(f) => Err(f)
      case Ok(t) => DarkRun(t, requested, imgs[1..], placeholder)
  }

  /** While fewer frames than requested are stored, each frame is stored. */
  lemma {:induction false} DarkRunStores(s: DarkState, requested: int, imgs: seq<Image>, placeholder: real)
    requires s.collect && !s.ready && s.count == |s.frames|
    requires s.count + |imgs| <= requested
    ensures DarkRun(s, requested, imgs, placeholder) == Ok(s.(frames := s.frames + imgs, count := s.count + |imgs|))
    decreases |imgs|
  {
    if imgs != [] {
      var t := s.(frames := s.frames + [imgs[0]], count := s.count + 1);
      assert DarkStep(s, requested, imgs[0], placeholder) == Ok(t);
      DarkRunStores(t, requested, imgs[1..], placeholder);
      assert t.frames + imgs[1..] == s.frames + imgs;
    } else {
      assert s.frames + imgs == s.frames;
    }
  }

  /**
   * A request for `n >= 0` darks, made while a dark is ready or before any
   * was collected, stores the next `n` frames, and the frame after them
   * publishes their average and ends the request.
   */
  lemma DarkRequestCompletes(s: DarkState, n: nat, imgs: seq<Image>, placeholder: real)
    requires s.collect && (s.ready || (s.frames == [] && s.count == 0))
    requires |imgs| == n + 1
    requires n == 0 || Uniform(imgs[..n])
    ensures DarkRun(s, n, imgs, placeholder) ==
              Ok(DarkState(false, true, imgs[..n], n, DarkMean(imgs[..n], placeholder).value))
  {
    var s0 := if s.ready then DarkState(true, false, [], 0, [[placeholder]]) else s;
    assert s0.frames == [] && s0.count == 0 && s0.collect && !s0.ready;
    if n == 0 {
      assert imgs[..0] == [];
      assert DarkStep(s, 0, imgs[0], placeholder) == Ok(s0.(avg := [[placeholder]], ready := true, collect := false));
    } else {
      var s1 := s0.(frames := [imgs[0]], count := 1);
      assert s0.frames + [imgs[0]] == [imgs[0]];
      assert DarkStep(s, n, imgs[0], placeholder) == Ok(s1);
      var middle := imgs[1..n];
      DarkRunStores(s1, n, middle, placeholder);
      var s2 := s1.(frames := [imgs[0]] + middle, count := n);
      assert [imgs[0]] + middle == imgs[..n];
      DarkRunSplit(s1, n, middle, imgs[n], placeholder);
      assert imgs[1..] == middle + [imgs[n]];
    }
  }

  /** A run followed by one more frame. */
  lemma {:induction false} DarkRunSplit(s: DarkState, requested: int, imgs: seq<Image>, img: Image, placeholder: real)
    ensures DarkRun(s, requested, imgs + [img], placeholder) ==
              match DarkRun(s, requested, imgs, placeholder)
              case Err(f) => Err(f)
              case Ok(t) => DarkStep(t, requested, img, placeholder)
    decreases |imgs|
  {
    if imgs == [] {
      assert [img][1..] == [];
    } else {
      assert (imgs + [img])[1..] == imgs[1..] + [img];
      match DarkStep(s, requested, imgs[0], placeholder)
      case Err(f) =>
      case Ok(t) => DarkRunSplit(t, requested, imgs[1..], img, placeholder);
    }
  }

  /** A requested count below the stored count is never reached: every frame is stored and the request never ends. */
  lemma DarkOverrun(s: DarkState, requested: int, raw: Image, placeholder: real)
    requires s.collect && !s.ready && requested < s.count
    ensures DarkStep(s, requested, raw, placeholder).Ok?
    ensures DarkStep(s, requested, raw, placeholder).value.collect
    ensures DarkStep(s, requested, raw, placeholder).value.frames == s.frames + [raw]
  {
  }

  // ---------------------------------------------------------------- the crosshair

  /** `range(c + lo, c + hi)`: the span of one crosshair bar around the cursor coordinate `c`. */
  datatype Arm = Arm(lo: int, hi: int)

  /** `range(x - 4, x + 5)` in the current copy. */
  const CurrentArm := Arm(-4, 5)
  /** `range(x - 10, x + 10)` in the older copy. */
  const LegacyArm := Arm(-10, 10)

  /** The bar along the rows: rows around `x`, columns y - 1 .. y + 1, written only when x and y ± 1 are strictly inside. */
  predicate RowBar(i: int, j: int, x: int, y: int, a: Arm, length: int, width: int)
  {
    x + a.lo <= i < x + a.hi && 0 <= i < length && 0 < x < length && 0 < y - 1 && y + 1 < width && y - 1 <= j <= y + 1
  }

  /** The bar along the columns: columns around `y`, rows x - 1 .. x + 1, written only when y and x ± 1 are strictly inside. */
  predicate ColumnBar(i: int, j: int, x: int, y: int, a: Arm, length: int, width: int)
  {
    y + a.lo <= j < y + a.hi && 0 <= j < width && 0 < y < width && 0 < x - 1 && x + 1 < length && x - 1 <= i <= x + 1
  }

  predicate Marked(i: int, j: int, x: int, y: int, a: Arm, length: int, width: int)
  {
    RowBar(i, j, x, y, a, length, width) || ColumnBar(i, j, x, y, a, length, width)
  }

  /** Every marked cell exists in the view. */
  ghost predicate CrossFits(view: Image, x: int, y: int, a: Arm, length: int, width: int)
  {
    RowBarFits(view, x, y, a, length, width) && ColumnBarFits(view, x, y, a, length, width)
  }

  /** Every cell the crosshair marks lies inside the admitted `length` x `width` area and inside the arms' span around the cursor. */
  lemma MarkedInside(i: int, j: int, x: int, y: int, a: Arm, length: int, width: int)
    requires Marked(i, j, x, y, a, length, width)
    ensures 0 <= i < length && 0 <= j < width
    ensures (x + a.lo <= i < x + a.hi && y - 1 <= j <= y + 1) || (y + a.lo <= j < y + a.hi && x - 1 <= i <= x + 1)
  {
  }

  /** The view admits the crosshair exactly when every marked cell exists in it. */
  lemma CrossFitsMarked(view: Image, x: int, y: int, a: Arm, length: int, width: int)
    ensures CrossFits(view, x, y, a, length, width) <==>
              forall i, j :: Marked(i, j, x, y, a, length, width) ==> i < |view| && j < |view[i]|
  {
    if CrossFits(view, x, y, a, length, width) {
      forall i, j | Marked(i, j, x, y, a, length, width)
        ensures i < |view| && j < |view[i]|
      {
        if RowBar(i, j, x, y, a, length, width) {
        } else {
          assert ColumnBar(i, j, x, y, a, length, width);
        }
      }
    } else if !RowBarFits(view, x, y, a, length, width) {
      var i, j :| RowBar(i, j, x, y, a, length, width) && !(i < |view| && j < |view[i]|);
      assert Marked(i, j, x, y, a, length, width);
    } else {
      var i, j :| ColumnBar(i, j, x, y, a, length, width) && !(i < |view| && j < |view[i]|);
      assert Marked(i, j, x, y, a, length, width);
    }
  }

  /** Every cell of the row bar exists in the view. */
  ghost predicate RowBarFits(view: Image, x: int, y: int, a: Arm, length: int, width: int)
  {
    forall i, j :: RowBar(i, j, x, y, a, length, width) ==> i < |view| && j < |view[i]|
  }

  /** Every cell of the column bar exists in the view. */
  ghost predicate ColumnBarFits(view: Image, x: int, y: int, a: Arm, length: int, width: int)
  {
    forall i, j :: ColumnBar(i, j, x, y, a, length, width) ==> i < |view| && j < |view[i]|
  }

  /** The first crosshair loop: the mark written at the row bar's cells, or an index error. */
  method DrawRowBar(view: Image, x: int, y: int, a: Arm, length: int, width: int, mark: real) returns (r: Result<Image>)
    requires a.lo <= a.hi
    ensures r.Ok? <==> RowBarFits(view, x, y, a, length, width)
    ensures r.Err? ==> r.fault == IndexError
    ensures r.Ok? ==> SameShape(r.value, view)
    ensures r.Ok? ==> forall i, j :: 0 <= i < |view| && 0 <= j < |view[i]| ==>
              r.value[i][j] == if RowBar(i, j, x, y, a, length, width) then mark else view[i][j]
  {
    var v := view;
    var i := x + a.lo;
    while i < x + a.hi
      invariant x + a.lo <= i <= x + a.hi
      invariant SameShape(v, view)
      invariant forall r, c :: RowBar(r, c, x, y, a, length, width) && r < i ==> r < |view| && c < |view[r]|
      invariant forall r, c :: 0 <= r < |view| && 0 <= c < |view[r]| ==>
                  v[r][c] == if RowBar(r, c, x, y, a, length, width) && r < i then mark else view[r][c]
    {
      if 0 <= i < length && 0 < x < length && 0 < y - 1 && y + 1 < width {
        if i >= |v| || y + 1 >= |v[i]| {
          assert RowBar(i, y + 1, x, y, a, length, width) && !(i < |view| && y + 1 < |view[i]|);
          return Err(IndexError);
        }
        v := v[i := v[i][y := mark][y - 1 := mark][y + 1 := mark]];
      }
      i := i + 1;
    }
    return Ok(v);
  }

  /** The second crosshair loop: the mark written at the column bar's cells, or an index error. */
  method DrawColumnBar(view: Image, x: int, y: int, a: Arm, length: int, width: int, mark: real) returns (r: Result<Image>)
    requires a.lo <= a.hi
    ensures r.Ok? <==> ColumnBarFits(view, x, y, a, length, width)
    ensures r.Err? ==> r.fault == IndexError
    ensures r.Ok? ==> SameShape(r.value, view)
    ensures r.Ok? ==> forall i, j :: 0 <= i < |view| && 0 <= j < |view[i]| ==>
              r.value[i][j] == if ColumnBar(i, j, x, y, a, length, width) then mark else view[i][j]
  {
    var v := view;
    var j := y + a.lo;
    while j < y + a.hi
      invariant y + a.lo <= j <= y + a.hi
      invariant SameShape(v, view)
      invariant forall r, c :: ColumnBar(r, c, x, y, a, length, width) && c < j ==> r < |view| && c < |view[r]|
      invariant forall r, c :: 0 <= r < |view| && 0 <= c < |view[r]| ==>
                  v[r][c] == if ColumnBar(r, c, x, y, a, length, width) && c < j then mark else view[r][c]
    {
      if 0 <= j < width && 0 < y < width && 0 < x - 1 && x + 1 < length {
        if x + 1 >= |v| || j >= |v[x]| || j >= |v[x - 1]| || j >= |v[x + 1]| {
          ghost var bad := if x + 1 >= |v| then x + 1 else if j >= |v[x]| then x else if j >= |v[x - 1]| then x - 1 else x + 1;
          assert ColumnBar(bad, j, x, y, a, length, width) && !(bad < |view| && j < |view[bad]|);
          return Err(IndexError);
        }
        v := v[x := v[x][j := mark]];
        v := v[x - 1 := v[x - 1][j := mark]];
        v := v[x + 1 := v[x + 1][j := mark]];
      }
      j := j + 1;
    }
    return Ok(v);
  }

  /** The view with the mark at every marked cell, or an index error when a marked cell is missing. */
  ghost function Crossed(view: Image, x: int, y: int, a: Arm, length: int, width: int, mark: real): Result<Image>
  {
    if CrossFits(view, x, y, a, length, width) then
      Ok(seq(|view|, i requires 0 <= i < |view| => seq(|view[i]|, j requires 0 <= j < |view[i]| =>
           if Marked(i, j, x, y, a, length, width) then mark else view[i][j])))
    else Err(IndexError)
  }

  /** Both crosshair loops: the mark at every marked cell of the view copy, or an index error when one is missing. */
  method Crosshair(view: Image, x: int, y: int, a: Arm, length: int, width: int, mark: real) returns (r: Result<Image>)
    requires a.lo <= a.hi
    ensures r == Crossed(view, x, y, a, length, width, mark)
    ensures r.Ok? <==> CrossFits(view, x, y, a, length, width)
    ensures r.Err? ==> r.fault == IndexError
    ensures r.Ok? ==> SameShape(r.value, view)
    ensures r.Ok? ==> forall i, j :: 0 <= i < |view| && 0 <= j < |view[i]| ==>
              r.value[i][j] == if Marked(i, j, x, y, a, length, width) then mark else view[i][j]
  {
    var rows := DrawRowBar(view, x, y, a, length, width, mark);
    if rows.Err? {
      return rows;
    }
    r := DrawColumnBar(rows.value, x, y, a, length, width, mark);
    assert ColumnBarFits(rows.value, x, y, a, length, width) <==> ColumnBarFits(view, x, y, a, length, width);
    if r.Ok? {
      var marked := Crossed(view, x, y, a, length, width, mark).value;
      assert |r.value| == |marked|;
      forall i | 0 <= i < |view|
        ensures r.value[i] == marked[i]
      {
        assert |r.value[i]| == |marked[i]|;
      }
      assert r.value == marked;
    }
  }

  // ---------------------------------------------------------------- buffers and the time plot

  /** A buffer under its deque capacity, or a plain list after a clear. */
  predicate Bounded<T>(b: Buffer<T>, cap: nat)
  {
    (b.cap == Some(cap) || b.cap == None) && Fits(b)
  }

  /** `n` zero samples. */
  function Blank(n: nat): (s: seq<int>)
    ensures |s| == n && forall k :: 0 <= k < n ==> s[k] == 0
  {
    seq(n, _ => 0)
  }

  /** The `m` indices before 0: -m .. -1. */
  function Preceding(m: nat): (s: seq<int>)
    ensures |s| == m && forall k :: 0 <= k < m ==> s[k] == k - m
  {
    seq(m, k => k - m)
  }

  /** Appending to a deque keeps its capacity, fills it up to that capacity and no further. */
  lemma PushAllLength<T>(b: Buffer<T>, xs: seq<T>)
    requires b.cap.Some? && Fits(b)
    ensures PushAll(b, xs).cap == b.cap && Fits(PushAll(b, xs))
    ensures |PushAll(b, xs).items| == Min(|b.items| + |xs|, b.cap.value)
  {
    PushAllKeeps(b, xs);
  }

  /**
   * The blank samples of a restart fill a deque whose capacity is their
   * number: afterwards the time plot is all zeros at the indices -m .. -1.
   */
  lemma TimePlotRestarts(plot: Buffer<int>, index: Buffer<int>, m: nat)
    requires plot.cap == Some(m) && Fits(plot)
    requires index.cap == Some(m) && Fits(index)
    ensures PushAll(plot, Blank(m)) == Buffer(Blank(m), Some(m))
    ensures PushAll(index, Preceding(m)) == Buffer(Preceding(m), Some(m))
    ensures m > 0 ==> PushAll(index, Preceding(m)).items[0] + m == 0 && PushAll(index, Preceding(m)).items[m - 1] == -1
  {
    PushAllKeeps(plot, Blank(m));
    PushAllKeeps(index, Preceding(m));
    PushAllFlushes(plot, Blank(m));
    PushAllFlushes(index, Preceding(m));
  }

  /** The restart loop: `m` zero samples, with the indices -m .. -1. */
  method AppendBlank(plot: Buffer<int>, index: Buffer<int>, m: nat) returns (p: Buffer<int>, q: Buffer<int>)
    ensures p == PushAll(plot, Blank(m)) && q == PushAll(index, Preceding(m))
  {
    p, q := plot, index;
    var i := 0;
    while i < m
      invariant 0 <= i <= m
      invariant p == PushAll(plot, Blank(i)) && q == PushAll(index, Preceding(m)[..i])
    {
      var blank, earlier := Blank(i + 1), Preceding(m)[..i + 1];
      assert blank[..i] == Blank(i) && blank[i] == 0;
      assert earlier[..i] == Preceding(m)[..i] && earlier[i] == i - m;
      assert PushAll(plot, blank) == Push(PushAll(plot, Blank(i)), 0);
      assert PushAll(index, earlier) == Push(PushAll(index, Preceding(m)[..i]), i - m);
      p := Push(p, 0);
      q := Push(q, i - m);
      i := i + 1;
    }
    assert Preceding(m)[..m] == Preceding(m);
  }

  /** The time plot a receiver starts with: 1000 zeros at the indices -1000 .. -1, filling both deques. */
  method PrimedTimePlot() returns (plot: Buffer<int>, index: Buffer<int>)
    ensures plot == Buffer(Blank(TimePlotCap), Some(TimePlotCap))
    ensures index == Buffer(Preceding(TimePlotCap), Some(TimePlotCap))
  {
    plot, index := AppendBlank(Deque(TimePlotCap), Deque(TimePlotCap), TimePlotCap);
    TimePlotRestarts(Deque(TimePlotCap), Deque(TimePlotCap), TimePlotCap);
  }

  // ---------------------------------------------------------------- the tracked pixel

  /** `img[x][y]` at a cursor that the guard has made non-negative. */
  function Pixel(img: Image, i: nat, j: nat): (r: Result<real>)
    ensures r.Ok? <==> i < |img| && j < |img[i]|
    ensures r.Ok? ==> r.value == img[i][j]
    ensures r.Err? ==> r.fault == IndexError
  {
    if i < |img| && j < |img[i]| then Ok(img[i][j]) else Err(IndexError)
  }

  /** `temp[x]`: the row through the cursor. */
  function Row(img: Image, i: nat): (r: Result<seq<real>>)
    ensures r.Ok? <==> i < |img|
    ensures r.Ok? ==> r.value == img[i]
    ensures r.Err? ==> r.fault == IndexError
  {
    if i < |img| then Ok(img[i]) else Err(IndexError)
  }

  /** `temp[:, y]`: the column through the cursor; the colormap's initial empty list cannot be indexed so. */
  function Column(img: Image, j: nat): (r: Result<seq<real>>)
    ensures img == [] ==> r == Err(TypeError)
    ensures img != [] ==> (r.Ok? <==> forall k :: 0 <= k < |img| ==> j < |img[k]|)
    ensures r.Err? && img != [] ==> r.fault == IndexError
    ensures r.Ok? ==> |r.value| == |img| && forall k :: 0 <= k < |img| ==> j < |img[k]| && r.value[k] == img[k][j]
  {
    if img == [] then Err(TypeError)
    else if forall k :: 0 <= k < |img| ==> j < |img[k]| then Ok(seq(|img|, k requires 0 <= k < |img| => img[k][j]))
    else Err(IndexError)
  }

  /** A horizontal or vertical profile: the requested slice, or `np.zeros(1)` when that plot is off. */
  function Profile(on: bool, slice: Result<seq<real>>): (r: Result<seq<real>>)
    ensures !on ==> r == Ok([0.0])
    ensures on ==> r == slice
  {
    if on then slice else Ok([0.0])
  }

  // ---------------------------------------------------------------- automatic contrast

  /** The contrast multiplier: 10 standard deviations with the dark subtracted, else 2. */
  function Multiplier(applyDark: bool): real
  {
    if applyDark then 10.0 else 2.0
  }

  /** `(int(mean + k std), int(mean - k std))`: the display range around the mean. */
  function Contrast(mean: real, dev: real, applyDark: bool): (range: (int, int))
  {
    (Trunc(mean + Multiplier(applyDark) * dev), Trunc(mean - Multiplier(applyDark) * dev))
  }

  /** With a non-negative deviation the contrast range is ordered and encloses the truncated mean. */
  lemma ContrastOrdered(mean: real, dev: real, applyDark: bool)
    requires dev >= 0.0
    ensures Contrast(mean, dev, applyDark).1 <= Trunc(mean) <= Contrast(mean, dev, applyDark).0
  {
    var spread := Multiplier(applyDark) * dev;
    assert spread >= 0.0 by {
      if applyDark { assert spread == 10.0 * dev; } else { assert spread == 2.0 * dev; }
    }
    TruncMonotone(mean - spread, mean);
    TruncMonotone(mean, mean + spread);
  }

  // ---------------------------------------------------------------- the receiver's state

  /** The frame geometry a receiver is constructed with, as rows by columns the cursor guard admits. */
  predicate InView(x: int, y: int, length: int, width: int)
  {
    0 <= x < length && 0 <= y < width
  }

  /** The crosshair's arms in either copy. */
  function ArmsOf(legacy: bool): (a: Arm)
    ensures a.lo <= a.hi
  {
    if legacy then LegacyArm else CurrentArm
  }

  /**
   * What a receiver is built with: the rows and columns the cursor guard
   * admits, which copy it is (`legacy`: arms of ten, no queue clears on a
   * restart, histogram bounds without a default), the model's stand-in for
   * numpy's NaN and uninitialised content, and the numpy reductions taken
   * as given: the per-pixel deviation behind the noise colormap and the
   * `(mean, std)` of frames taken as one array, and the cells of the
   * descrambled frame (its numpy dtype).
   */
  datatype Setup = Setup(length: int, width: int, legacy: bool, placeholder: real,
                         deviation: seq<Image> -> Image, stats: seq<Image> -> (real, real), cell: Cell)

  /**
   * The cells of the view the crosshair is drawn into: the noise colormap
   * (`np.std`) and a frame minus the dark average are float64 arrays; any
   * other view is the frame as its descrambler returned it.
   */
  function ViewCell(c: Controls, g: Setup): Cell
  {
    if c.noiseColormap || c.applyDark then FloatCell else g.cell
  }

  /** The variables the viewer writes and `process` only reads. */
  datatype Controls = Controls(timePlotMaxLen: nat, numDarkReq: int, applyDark: bool, showDark: bool,
                               cursorX: int, cursorY: int, noiseColormap: bool,
                               plotHorizontal: bool, plotVertical: bool, autoCon: bool)

  /** Everything `process` reads and writes besides the viewer's controls and the frame. */
  datatype State = State(
    resetRequest: bool, dark: DarkState,
    queue: Buffer<real>, imageQueue: Buffer<Image>, noiseQueue: Buffer<Image>,
    timePlot: Buffer<int>, timeIndex: Buffer<int>, nextIndex: int, maxlen: nat,
    oldApplyDark: bool, x: int, y: int, colormap: Image, noiseColormapReady: bool,
    data: Image, pixelScalar: int, pixelData: seq<int>, indexData: seq<int>,
    horizontal: seq<real>, vertical: seq<real>, histogram: seq<nat>, bins: seq<int>,
    maxPixVal: int, minPixVal: int, updated: bool)

  /**
   * The analysis buffers within their capacities (a cleared one is a plain
   * list), both time-plot deques under the recorded `maxlen` with one index
   * per sample, and one count per stored dark.
   */
  predicate Consistent(s: State)
  {
    && Bounded(s.queue, QueueCap) && Bounded(s.imageQueue, ImageCap) && Bounded(s.noiseQueue, NoiseCap)
    && s.timePlot.cap == Some(s.maxlen) && s.timeIndex.cap == Some(s.maxlen)
    && Fits(s.timePlot) && Fits(s.timeIndex) && |s.timePlot.items| == |s.timeIndex.items|
    && s.dark.count == |s.dark.frames|
  }

  /** A new receiver: empty deques, the time plot primed with 1000 zeros at -1000 .. -1, no dark, the display range 10000 .. 12000. */
  function Initial(placeholder: real): State
  {
    State(false, DarkState(false, false, [], 0, [[placeholder]]),
          Deque(QueueCap), Deque(ImageCap), Deque(NoiseCap),
          Buffer(Blank(TimePlotCap), Some(TimePlotCap)), Buffer(Preceding(TimePlotCap), Some(TimePlotCap)), 0, TimePlotCap,
          false, 0, 0, [], false,
          [], 0, [], [], [], [], [], [],
          12000, 10000, false)
  }

  // ---------------------------------------------------------------- one frame, step by step

  /**
   * The throttled colormap refresh (the deviation of the noise queue, when
   * it holds frames) and the ready flag.  A noise queue of frames of
   * different shapes forms no array, and the refresh raises before anything
   * else of the frame happens.
   */
  function Refreshed(s: State, g: Setup, refresh: bool): (r: Result<State>)
    ensures r.Err? <==> refresh && !Stacks(s.noiseQueue.items)
    ensures r.Err? ==> r.fault == ReshapeError
  {
    if refresh && !Stacks(s.noiseQueue.items) then Err(ReshapeError)
    else
      var colormap := if refresh && s.noiseQueue.items != [] then g.deviation(s.noiseQueue.items) else s.colormap;
      Ok(s.(colormap := colormap, noiseColormapReady := s.noiseColormapReady || |colormap| > 0))
  }


  /**
   * `resetTimePlot`: `m` zero samples at the indices -m .. -1 appended to
   * both time-plot deques, the next index 0, and in the current copy the
   * histogram and noise queues cleared to lists.
   */
  function Restarted(s: State, m: nat, legacy: bool): State
  {
    s.(timePlot := PushAll(s.timePlot, Blank(m)), timeIndex := PushAll(s.timeIndex, Preceding(m)), nextIndex := 0,
       queue := if legacy then s.queue else List(), noiseQueue := if legacy then s.noiseQueue else List())
  }

  /** `resetTimePlot`, the samples appended one by one by its loop. */
  method ResetTimePlot(s: State, m: nat, legacy: bool) returns (t: State)
    ensures t == Restarted(s, m, legacy)
  {
    var plot, index := AppendBlank(s.timePlot, s.timeIndex, m);
    t := s.(timePlot := plot, timeIndex := index, nextIndex := 0);
    if !legacy {
      t := t.(queue := List(), noiseQueue := List());
    }
  }

  /** `resetTimePlotMaxLen`: both time-plot deques rebuilt under the capacity `m`. */
  function Recapped(s: State, m: nat): State
  {
    s.(timePlot := Resized(s.timePlot, m), timeIndex := Resized(s.timeIndex, m))
  }

  /**
   * The steps before the frame is looked at: the colormap refresh, a
   * requested restart (then no longer requested), and a changed
   * `TimePlotMaxLen` applied and recorded.  A raising refresh ends it.
   */
  function Prelude(s: State, c: Controls, g: Setup, refresh: bool): (r: Result<State>)
    ensures r.Err? <==> refresh && !Stacks(s.noiseQueue.items)
  {
    match Refreshed(s, g, refresh)
    case Err(f) => Err(f)
    case Ok(s1) =>
      var s2 := if s1.resetRequest then Restarted(s1, c.timePlotMaxLen, g.legacy).(resetRequest := false) else s1;
      Ok(if c.timePlotMaxLen == s2.maxlen then s2 else Recapped(s2, c.timePlotMaxLen).(maxlen := c.timePlotMaxLen))
  }

  /** The prelude, a requested restart run by the restart loop. */
  method RunPrelude(s: State, c: Controls, g: Setup, refresh: bool) returns (r: Result<State>)
    ensures r == Prelude(s, c, g, refresh)
  {
    r := Refreshed(s, g, refresh);
    if r.Err? {
      return;
    }
    var t := r.value;
    if t.resetRequest {
      t := ResetTimePlot(t, c.timePlotMaxLen, g.legacy);
      t := t.(resetRequest := false);
    }
    if c.timePlotMaxLen != t.maxlen {
      t := Recapped(t, c.timePlotMaxLen).(maxlen := c.timePlotMaxLen);
    }
    r := Ok(t);
  }

  /** A change of `ApplyDark` clears the three analysis buffers to lists and is recorded. */
  function Toggled(s: State, applyDark: bool): State
  {
    if applyDark == s.oldApplyDark then s
    else s.(queue := List(), imageQueue := List(), noiseQueue := List(), oldApplyDark := applyDark)
  }

  /** The frame the rest of the analysis sees: minus the dark average while `ApplyDark` is on. */
  function Correct(img: Image, avg: Image, applyDark: bool): (r: Result<Image>)
    ensures !applyDark ==> r == Ok(img)
    ensures r.Ok? ==> SameShape(r.value, img)
  {
    if applyDark then Subtract(img, avg) else Ok(img)
  }

  /**
   * What `Data` shows: the dark average with `ShowDark`, else the view (the
   * frame, or the colormap on the noise colormap) with the crosshair at the
   * cursor taken from `X` and `Y` swapped; a moved cursor first clears the
   * histogram queue, and a crosshair cell missing from the view raises
   * after the cursor has moved.
   */
  ghost function Displayed(s: State, c: Controls, g: Setup, raw: Image): (State, Option<Fault>)
  {
    if c.showDark then (s.(data := s.dark.avg), None)
    else
      var moved := c.cursorX != s.y || c.cursorY != s.x;
      var s1 := s.(queue := if moved then List() else s.queue, x := c.cursorY, y := c.cursorX);
      var view := if c.noiseColormap then s.colormap else raw;
      match Crossed(view, s1.x, s1.y, ArmsOf(g.legacy), g.length, g.width, Mark(ViewCell(c, g)))
      case Err(f) => (s1, Some(f))
      case Ok(v) => (s1.(data := v), None)
  }

  /**
   * The cursor pixel's truncated value published and appended to the time
   * plot at the next index, and both time-plot arrays published.
   */
  function Sampled(s: State, v: real): State
  {
    var plot := Push(s.timePlot, Trunc(v));
    var index := Push(s.timeIndex, s.nextIndex);
    s.(pixelScalar := Trunc(v), timePlot := plot, timeIndex := index, nextIndex := s.nextIndex + 1,
       pixelData := plot.items, indexData := index.items)
  }

  /**
   * Row `i` and column `j` of `temp` published, each only when its plot is
   * on; the first that cannot be taken raises and the second is then not
   * attempted.  Then the pixel `v` goes into the histogram queue and the
   * frame into the image queue.
   */
  function Profiled(s: State, c: Controls, temp: Image, i: nat, j: nat, v: real, raw: Image): (State, Option<Fault>)
  {
    match Profile(c.plotHorizontal, Row(temp, i))
    case Err(f) => (s, Some(f))
    case Ok(h) =>
      match Profile(c.plotVertical, Column(temp, j))
      case Err(f) => (s.(horizontal := h), Some(f))
      case Ok(w) =>
        (s.(horizontal := h, vertical := w, queue := Push(s.queue, v), imageQueue := Push(s.imageQueue, raw)), None)
  }

  /**
   * The cursor pixel, when the guard admits the cursor: sampled into the
   * time plot, then the profiles (from the colormap on the noise colormap)
   * and the queues.  A raise keeps the effects before it.
   */
  function Tracked(s: State, c: Controls, g: Setup, raw: Image): (State, Option<Fault>)
  {
    if !InView(s.x, s.y, g.length, g.width) then (s, None)
    else
      match Pixel(raw, s.x, s.y)
      case Err(f) => (s, Some(f))
      case Ok(v) => Profiled(Sampled(s, v), c, if c.noiseColormap then s.colormap else raw, s.x, s.y, v, raw)
  }

  /** The histogram of the queued pixel values: the older copy cannot reduce an empty queue. */
  function PlotFor(legacy: bool, vals: seq<real>): (r: Result<Plot>)
    ensures r.Err? <==> legacy && vals == []
    ensures r.Err? ==> r.fault == EmptyReduction
    ensures !legacy ==> r == Ok(HistogramOf(vals))
  {
    if legacy then LegacyHistogramOf(vals) else Ok(HistogramOf(vals))
  }

  /**
   * The histogram and, with `AutoCon`, the display range: around the dark
   * average with `ShowDark`, else around the queued frames (NaN, and so a
   * raise, when none is queued), and pinned to 0 .. 50 on the noise
   * colormap.  An image queue of frames of different shapes forms no array
   * and raises before anything is published.
   */
  function Analysed(s: State, c: Controls, g: Setup): (State, Option<Fault>)
  {
    if !Stacks(s.imageQueue.items) then (s, Some(ReshapeError))
    else
      match PlotFor(g.legacy, s.queue.items)
      case Err(f) => (s, Some(f))
      case Ok(p) =>
        var s1 := s.(histogram := p.counts, bins := p.bins);
        if !c.autoCon then (s1, None)
        else if !c.showDark && s.imageQueue.items == [] then (s1, Some(NotANumber))
        else
          var m := if c.showDark then g.stats([s.dark.avg]) else g.stats(s.imageQueue.items);
          var range := if c.noiseColormap then (50, 0) else Contrast(m.0, m.1, c.applyDark);
          (s1.(maxPixVal := range.0, minPixVal := range.1), None)
  }

  /**
   * The corrected frame `raw` shown, put into the noise queue, tracked and
   * analysed, and last `Updated` raised.  The first raise ends the frame
   * and keeps the effects before it.
   */
  ghost function Presented(s: State, c: Controls, g: Setup, raw: Image): (State, Option<Fault>)
  {
    var shown := Displayed(s, c, g, raw);
    if shown.1.Some? then shown
    else
      var tracked := Tracked(shown.0.(noiseQueue := Push(shown.0.noiseQueue, raw)), c, g, raw);
      if tracked.1.Some? then tracked
      else
        var analysed := Analysed(tracked.0, c, g);
        if analysed.1.Some? then analysed
        else (analysed.0.(updated := true), None)
  }

  /**
   * The frame after the prelude: dark collection, the `ApplyDark` toggle,
   * the subtraction, then the rest of the frame as `Presented`.  A raise
   * keeps the effects before it.
   */
  ghost function Frame(s: State, c: Controls, g: Setup, img: Image): (State, Option<Fault>)
  {
    match DarkStep(s.dark, c.numDarkReq, img, g.placeholder)
    case Err(f) => (s, Some(f))
    case Ok(d) =>
      var s1 := Toggled(s.(dark := d), c.applyDark);
      match Correct(img, d.avg, c.applyDark)
      case Err(f) => (s1, Some(f))
      case Ok(raw) => Presented(s1, c, g, raw)
  }

  /** `process`: the prelude, then the frame; a raising prelude changes nothing. */
  ghost function Step(s: State, c: Controls, g: Setup, img: Image, refresh: bool): (State, Option<Fault>)
  {
    match Prelude(s, c, g, refresh)
    case Err(f) => (s, Some(f))
    case Ok(p) => Frame(p, c, g, img)
  }

  /** The display step, with the crosshair drawn by its two loops. */
  method Display(s: State, c: Controls, g: Setup, raw: Image) returns (t: State, fault: Option<Fault>)
    ensures (t, fault) == Displayed(s, c, g, raw)
  {
    if c.showDark {
      return s.(data := s.dark.avg), None;
    }
    var moved := c.cursorX != s.y || c.cursorY != s.x;
    t := s.(queue := if moved then List() else s.queue, x := c.cursorY, y := c.cursorX);
    var view := if c.noiseColormap then s.colormap else raw;
    var drawn := Crosshair(view, t.x, t.y, ArmsOf(g.legacy), g.length, g.width, Mark(ViewCell(c, g)));
    if drawn.Err? {
      return t, Some(drawn.fault);
    }
    t, fault := t.(data := drawn.value), None;
  }

  /** One frame after the prelude, step by step. */
  method RunFrame(s: State, c: Controls, g: Setup, img: Image) returns (t: State, fault: Option<Fault>)
    ensures (t, fault) == Frame(s, c, g, img)
  {
    var dark := DarkStep(s.dark, c.numDarkReq, img, g.placeholder);
    if dark.Err? {
      return s, Some(dark.fault);
    }
    t := Toggled(s.(dark := dark.value), c.applyDark);
    var corrected := Correct(img, dark.value.avg, c.applyDark);
    if corrected.Err? {
      return t, Some(corrected.fault);
    }
    t, fault := Present(t, c, g, corrected.value);
  }

  /** The rest of a frame, with the crosshair drawn by its loops. */
  method Present(s: State, c: Controls, g: Setup, raw: Image) returns (t: State, fault: Option<Fault>)
    ensures (t, fault) == Presented(s, c, g, raw)
  {
    t, fault := Display(s, c, g, raw);
    if fault.Some? {
      return;
    }
    var tracked := Tracked(t.(noiseQueue := Push(t.noiseQueue, raw)), c, g, raw);
    if tracked.1.Some? {
      return tracked.0, tracked.1;
    }
    var analysed := Analysed(tracked.0, c, g);
    if analysed.1.Some? {
      return analysed.0, analysed.1;
    }
    return analysed.0.(updated := true), None;
  }

  // ---------------------------------------------------------------- what each step does

  /** A restart keeps the state consistent: both time-plot deques get the same number of samples. */
  lemma RestartedConsistent(s: State, m: nat, legacy: bool)
    requires Consistent(s)
    ensures Consistent(Restarted(s, m, legacy))
  {
    PushAllLength(s.timePlot, Blank(m));
    PushAllLength(s.timeIndex, Preceding(m));
  }

  /**
   * A new capacity recorded with both deques rebuilt keeps the state
   * consistent, and each deque keeps its newest entries, as many as fit.
   */
  lemma RecappedKeepsNewest(s: State, m: nat)
    requires Consistent(s)
    ensures var t := Recapped(s, m).(maxlen := m);
            && Consistent(t)
            && |t.timePlot.items| == Min(|s.timePlot.items|, m)
            && (forall i :: 0 <= i < |t.timePlot.items| ==>
                  t.timePlot.items[i] == s.timePlot.items[|s.timePlot.items| - |t.timePlot.items| + i])
            && (forall i :: 0 <= i < |t.timeIndex.items| ==>
                  t.timeIndex.items[i] == s.timeIndex.items[|s.timeIndex.items| - |t.timeIndex.items| + i])
  {
    ResizedKeepsNewest(s.timePlot, m);
    ResizedKeepsNewest(s.timeIndex, m);
  }

  /**
   * A prelude that goes through keeps the state consistent, ends any
   * restart request and records the capacity; one raises exactly when the
   * refresh meets a noise queue of frames of different shapes.
   */
  lemma PreludeConsistent(s: State, c: Controls, g: Setup, refresh: bool)
    requires Consistent(s)
    ensures Prelude(s, c, g, refresh).Err? <==> refresh && !Stacks(s.noiseQueue.items)
    ensures Prelude(s, c, g, refresh).Ok? ==>
              && Consistent(Prelude(s, c, g, refresh).value)
              && !Prelude(s, c, g, refresh).value.resetRequest
              && Prelude(s, c, g, refresh).value.maxlen == c.timePlotMaxLen
  {
    if refresh && !Stacks(s.noiseQueue.items) {
      return;
    }
    var m := c.timePlotMaxLen;
    var s1 := Refreshed(s, g, refresh).value;
    var s2 := if s1.resetRequest then Restarted(s1, m, g.legacy).(resetRequest := false) else s1;
    if s1.resetRequest {
      RestartedConsistent(s1, m, g.legacy);
    }
    if m == s2.maxlen {
      assert Prelude(s, c, g, refresh) == Ok(s2);
    } else {
      RecappedKeepsNewest(s2, m);
      assert Prelude(s, c, g, refresh) == Ok(Recapped(s2, m).(maxlen := m));
    }
  }

  /**
   * A restart requested under an unchanged capacity leaves the time plot
   * exactly `m` zeros at the indices -m .. -1, with 0 the next index.
   */
  lemma RestartFlushes(s: State, c: Controls, g: Setup, refresh: bool)
    requires Consistent(s) && s.resetRequest && c.timePlotMaxLen == s.maxlen
    ensures Prelude(s, c, g, refresh).Ok? ==>
              && Prelude(s, c, g, refresh).value.timePlot == Buffer(Blank(s.maxlen), Some(s.maxlen))
              && Prelude(s, c, g, refresh).value.timeIndex == Buffer(Preceding(s.maxlen), Some(s.maxlen))
              && Prelude(s, c, g, refresh).value.nextIndex == 0
  {
    if Refreshed(s, g, refresh).Ok? {
      var s1 := Refreshed(s, g, refresh).value;
      assert Prelude(s, c, g, refresh) == Ok(Restarted(s1, s.maxlen, g.legacy).(resetRequest := false));
      TimePlotRestarts(s.timePlot, s.timeIndex, s.maxlen);
    }
  }

  /**
   * A changed `ApplyDark` is recorded and restarts the three analysis
   * buffers as plain lists; an unchanged one changes nothing.
   */
  lemma ToggledClears(s: State, applyDark: bool)
    requires Consistent(s)
    ensures Consistent(Toggled(s, applyDark)) && Toggled(s, applyDark).oldApplyDark == applyDark
    ensures applyDark != s.oldApplyDark ==>
              Toggled(s, applyDark).queue == List() && Toggled(s, applyDark).imageQueue == List() &&
              Toggled(s, applyDark).noiseQueue == List()
    ensures applyDark == s.oldApplyDark ==> Toggled(s, applyDark) == s
  {
  }

  /** The crosshair keeps the view's shape and puts the mark at exactly the marked cells. */
  lemma CrossedMarks(view: Image, x: int, y: int, a: Arm, length: int, width: int, mark: real)
    requires Crossed(view, x, y, a, length, width, mark).Ok?
    ensures var r := Crossed(view, x, y, a, length, width, mark).value;
            && SameShape(r, view)
            && forall i, j :: 0 <= i < |view| && 0 <= j < |view[i]| ==>
                 r[i][j] == if Marked(i, j, x, y, a, length, width) then mark else view[i][j]
  {
  }

  /**
   * The display step: with `ShowDark` the dark average is shown and
   * nothing else changes; otherwise the cursor becomes `X` and `Y` swapped,
   * a moved cursor clears the histogram queue, and the step raises an index
   * error exactly when a crosshair cell is missing from the view, else
   * `Data` is the view with the crosshair.
   */
  lemma DisplayedFollowsCursor(s: State, c: Controls, g: Setup, raw: Image)
    requires Consistent(s)
    ensures var (t, fault) := Displayed(s, c, g, raw);
            && Consistent(t)
            && (c.showDark ==> fault == None && t == s.(data := s.dark.avg))
            && (!c.showDark ==>
                  var view := if c.noiseColormap then s.colormap else raw;
                  && t.x == c.cursorY && t.y == c.cursorX
                  && t.queue == (if c.cursorX != s.y || c.cursorY != s.x then List() else s.queue)
                  && (fault == None <==> CrossFits(view, c.cursorY, c.cursorX, ArmsOf(g.legacy), g.length, g.width))
                  && (fault != None ==> fault == Some(IndexError) && t.data == s.data)
                  && (fault == None ==> t.data == Crossed(view, c.cursorY, c.cursorX, ArmsOf(g.legacy), g.length, g.width, Mark(ViewCell(c, g))).value))
  {
  }

  /**
   * The display step changes only the histogram queue (cleared to a list
   * or kept), the cursor and `Data`, and so keeps the state consistent.
   */
  lemma DisplayedKeeps(s: State, c: Controls, g: Setup, raw: Image)
    requires Consistent(s)
    ensures var t := Displayed(s, c, g, raw).0;
            && t == s.(queue := t.queue, x := t.x, y := t.y, data := t.data)
            && (t.queue == s.queue || t.queue == List())
            && Consistent(t)
  {
    var t := Displayed(s, c, g, raw).0;
    assert t == s.(queue := t.queue, x := t.x, y := t.y, data := t.data) && (t.queue == s.queue || t.queue == List()) by {
      if !c.showDark {
        var moved := c.cursorX != s.y || c.cursorY != s.x;
        var s1 := s.(queue := if moved then List() else s.queue, x := c.cursorY, y := c.cursorX);
        var view := if c.noiseColormap then s.colormap else raw;
        var r := Crossed(view, s1.x, s1.y, ArmsOf(g.legacy), g.length, g.width, Mark(ViewCell(c, g)));
        if r.Err? {
          assert t == s1;
        } else {
          assert t == s1.(data := r.value);
        }
      }
    }
  }

  /** Sampling keeps the state consistent, counts the sample and publishes both time-plot arrays. */
  lemma SampledRecords(s: State, v: real)
    requires Consistent(s)
    ensures var t := Sampled(s, v);
            && Consistent(t)
            && t.nextIndex == s.nextIndex + 1 && t.pixelScalar == Trunc(v)
            && t.pixelData == t.timePlot.items && t.indexData == t.timeIndex.items
  {
    var plot, index := Push(s.timePlot, Trunc(v)), Push(s.timeIndex, s.nextIndex);
    PushFits(s.timePlot, Trunc(v));
    PushFits(s.timeIndex, s.nextIndex);
    assert |plot.items| == |index.items|;
    var t := Sampled(s, v);
    assert t.timePlot == plot && t.timeIndex == index;
  }

  /** With room in the time plot, the truncated value is its newest sample, at the index before the next one. */
  lemma SampledNewest(s: State, v: real)
    requires Consistent(s) && s.maxlen > 0
    ensures var t := Sampled(s, v);
            && t.timePlot.items != [] && t.timePlot.items[|t.timePlot.items| - 1] == Trunc(v)
            && t.timeIndex.items != [] && t.timeIndex.items[|t.timeIndex.items| - 1] == s.nextIndex
  {
    PushNewest(s.timePlot, Trunc(v));
    PushNewest(s.timeIndex, s.nextIndex);
  }

  /**
   * The profiles change only the two profiles and the two queues and keep
   * the state consistent; a raise leaves the queues as they were, and
   * otherwise the pixel and the frame are the newest entries of the
   * histogram and image queues.
   */
  lemma ProfiledQueues(s: State, c: Controls, temp: Image, i: nat, j: nat, v: real, raw: Image)
    requires Consistent(s)
    ensures var (t, fault) := Profiled(s, c, temp, i, j, v, raw);
            && Consistent(t)
            && t == s.(horizontal := t.horizontal, vertical := t.vertical, queue := t.queue, imageQueue := t.imageQueue)
            && (fault != None ==> t.queue == s.queue && t.imageQueue == s.imageQueue)
            && (fault == None ==>
                  && t.queue.items != [] && t.queue.items[|t.queue.items| - 1] == v
                  && t.imageQueue.items != [] && t.imageQueue.items[|t.imageQueue.items| - 1] == raw)
  {
    var rh := Profile(c.plotHorizontal, Row(temp, i));
    var rw := Profile(c.plotVertical, Column(temp, j));
    if rh.Err? {
      assert Profiled(s, c, temp, i, j, v, raw) == (s, Some(rh.fault));
    } else if rw.Err? {
      assert Profiled(s, c, temp, i, j, v, raw) == (s.(horizontal := rh.value), Some(rw.fault));
    } else {
      assert Profiled(s, c, temp, i, j, v, raw) ==
             (s.(horizontal := rh.value, vertical := rw.value, queue := Push(s.queue, v), imageQueue := Push(s.imageQueue, raw)), None);
      PushFits(s.queue, v);
      PushFits(s.imageQueue, raw);
      PushNewest(s.queue, v);
      PushNewest(s.imageQueue, raw);
    }
  }

  /**
   * A profile that is on is row `i` or column `j` of `temp`, and one that
   * is off is a single zero; a missing row raises before anything changes,
   * and the only raises are index errors and the column of an empty view.
   */
  lemma ProfiledSlices(s: State, c: Controls, temp: Image, i: nat, j: nat, v: real, raw: Image)
    ensures var (t, fault) := Profiled(s, c, temp, i, j, v, raw);
            && (c.plotHorizontal && i >= |temp| ==> fault == Some(IndexError) && t == s)
            && (fault != None ==> fault == Some(IndexError) || (fault == Some(TypeError) && temp == []))
            && (fault == None && c.plotHorizontal ==> i < |temp| && t.horizontal == temp[i])
            && (fault == None && !c.plotHorizontal ==> t.horizontal == [0.0])
            && (fault == None && c.plotVertical ==>
                  |t.vertical| == |temp| && forall k :: 0 <= k < |temp| ==> j < |temp[k]| && t.vertical[k] == temp[k][j])
            && (fault == None && !c.plotVertical ==> t.vertical == [0.0])
  {
    var rh := Profile(c.plotHorizontal, Row(temp, i));
    var rw := Profile(c.plotVertical, Column(temp, j));
    if rh.Err? {
      assert Profiled(s, c, temp, i, j, v, raw) == (s, Some(rh.fault));
    } else if rw.Err? {
      assert Profiled(s, c, temp, i, j, v, raw) == (s.(horizontal := rh.value), Some(rw.fault));
    } else {
      assert Profiled(s, c, temp, i, j, v, raw).0.horizontal == rh.value;
      assert Profiled(s, c, temp, i, j, v, raw).0.vertical == rw.value;
      assert Profiled(s, c, temp, i, j, v, raw).1 == None;
    }
  }

  /** Tracking keeps the state consistent whether it goes through or raises. */
  lemma TrackedConsistent(s: State, c: Controls, g: Setup, raw: Image)
    requires Consistent(s)
    ensures Consistent(Tracked(s, c, g, raw).0)
  {
    if InView(s.x, s.y, g.length, g.width) && Pixel(raw, s.x, s.y).Ok? {
      var v := Pixel(raw, s.x, s.y).value;
      SampledRecords(s, v);
      ProfiledQueues(Sampled(s, v), c, if c.noiseColormap then s.colormap else raw, s.x, s.y, v, raw);
    }
  }

  /**
   * A cursor outside the guard changes nothing, and one past the frame
   * raises an index error before anything changes.
   */
  lemma TrackedGuard(s: State, c: Controls, g: Setup, raw: Image)
    ensures !InView(s.x, s.y, g.length, g.width) ==> Tracked(s, c, g, raw) == (s, None)
    ensures InView(s.x, s.y, g.length, g.width) && Pixel(raw, s.x, s.y).Err? ==> Tracked(s, c, g, raw) == (s, Some(IndexError))
    ensures InView(s.x, s.y, g.length, g.width) && s.x < |raw| && s.y < |raw[s.x]| ==>
              Tracked(s, c, g, raw)
              == Profiled(Sampled(s, raw[s.x][s.y]), c, if c.noiseColormap then s.colormap else raw, s.x, s.y, raw[s.x][s.y], raw)
  {
    if InView(s.x, s.y, g.length, g.width) && s.x < |raw| && s.y < |raw[s.x]| {
      assert Pixel(raw, s.x, s.y) == Ok(raw[s.x][s.y]);
    }
  }

  /**
   * `t` holds the sample `v` of frame `raw` taken in `s`: the truncated value
   * is published and is the newest time-plot sample at the index before the
   * next one, and the value and the frame are the newest entries of their
   * queues.
   */
  ghost predicate Recorded(s: State, t: State, v: real, raw: Image)
  {
    && t.pixelScalar == Trunc(v) && t.nextIndex == s.nextIndex + 1
    && t.timePlot.items != [] && t.timePlot.items[|t.timePlot.items| - 1] == Trunc(v)
    && t.timeIndex.items != [] && t.timeIndex.items[|t.timeIndex.items| - 1] == s.nextIndex
    && t.queue.items != [] && t.queue.items[|t.queue.items| - 1] == v
    && t.imageQueue.items != [] && t.imageQueue.items[|t.imageQueue.items| - 1] == raw
  }

  /** A sample followed by profiles that go through records the sample. */
  lemma SampledProfiled(s: State, c: Controls, temp: Image, i: nat, j: nat, v: real, raw: Image)
    requires Consistent(s) && s.maxlen > 0
    ensures Profiled(Sampled(s, v), c, temp, i, j, v, raw).1 == None ==>
              Recorded(s, Profiled(Sampled(s, v), c, temp, i, j, v, raw).0, v, raw)
  {
    var u := Sampled(s, v);
    SampledRecords(s, v);
    SampledNewest(s, v);
    ProfiledQueues(u, c, temp, i, j, v, raw);
    var t := Profiled(u, c, temp, i, j, v, raw).0;
    assert t.timePlot == u.timePlot && t.timeIndex == u.timeIndex;
    assert t.pixelScalar == u.pixelScalar && t.nextIndex == u.nextIndex;
  }

  /**
   * When the guard admits the cursor and tracking went through, the cursor
   * pixel of the frame exists and its sample is recorded.
   */
  lemma TrackedPixel(s: State, c: Controls, g: Setup, raw: Image)
    requires Consistent(s) && s.maxlen > 0 && InView(s.x, s.y, g.length, g.width)
    ensures Tracked(s, c, g, raw).1 == None ==>
              s.x < |raw| && s.y < |raw[s.x]| && Recorded(s, Tracked(s, c, g, raw).0, raw[s.x][s.y], raw)
  {
    TrackedGuard(s, c, g, raw);
    if s.x < |raw| && s.y < |raw[s.x]| {
      SampledProfiled(s, c, if c.noiseColormap then s.colormap else raw, s.x, s.y, raw[s.x][s.y], raw);
    }
  }

  /**
   * A view declared with rows and columns swapped, as the ePixHR-Mv2 and the
   * 100 kHz ePixUHR receivers declare theirs: on a frame with fewer rows
   * than columns the guard admits a cursor on the first row past the frame,
   * and tracking raises instead of sampling.
   */
  lemma SwappedViewOverruns(s: State, c: Controls, g: Setup, raw: Image, rows: nat, cols: nat)
    requires 0 < rows < cols && IsMatrix(raw, rows, cols)
    requires g.length == cols && g.width == rows
    requires s.x == rows && s.y == 0
    ensures InView(s.x, s.y, g.length, g.width)
    ensures Tracked(s, c, g, raw) == (s, Some(IndexError))
  {
    TrackedGuard(s, c, g, raw);
  }

  /**
   * A view of the frame's own shape: whenever the guard admits the cursor,
   * the cursor pixel exists and tracking samples it.
   */
  lemma CursorInFrame(s: State, c: Controls, g: Setup, raw: Image)
    requires InView(s.x, s.y, g.length, g.width) && IsMatrix(raw, g.length, g.width)
    ensures s.x < |raw| && s.y < |raw[s.x]|
    ensures Tracked(s, c, g, raw)
         == Profiled(Sampled(s, raw[s.x][s.y]), c, if c.noiseColormap then s.colormap else raw, s.x, s.y, raw[s.x][s.y], raw)
  {
    assert |raw[s.x]| == g.width;
    TrackedGuard(s, c, g, raw);
  }

  /**
   * With a view of the frame's own shape and profiles taken of the frame
   * itself, every cursor the guard admits is tracked without a fault and
   * its sample recorded.
   */
  lemma OwnViewFits(s: State, c: Controls, g: Setup, raw: Image)
    requires Consistent(s) && s.maxlen > 0 && !c.noiseColormap
    requires InView(s.x, s.y, g.length, g.width) && IsMatrix(raw, g.length, g.width)
    ensures s.x < |raw| && s.y < |raw[s.x]|
    ensures Tracked(s, c, g, raw).1 == None
    ensures Recorded(s, Tracked(s, c, g, raw).0, raw[s.x][s.y], raw)
  {
    CursorInFrame(s, c, g, raw);
    var v := raw[s.x][s.y];
    assert Row(raw, s.x).Ok?;
    assert Column(raw, s.y).Ok?;
    SampledProfiled(s, c, raw, s.x, s.y, v, raw);
  }

  /**
   * The histogram step raises in three cases only: an image queue of frames
   * of different shapes and, after it, the older copy on an empty histogram
   * queue, both before publishing anything; and the automatic contrast
   * around no queued frame.
   */
  lemma AnalysedRaises(s: State, c: Controls, g: Setup)
    ensures Analysed(s, c, g).1 == Some(ReshapeError) <==> !Stacks(s.imageQueue.items)
    ensures Analysed(s, c, g).1 == Some(EmptyReduction) <==>
              Stacks(s.imageQueue.items) && g.legacy && s.queue.items == []
    ensures Analysed(s, c, g).1 == Some(NotANumber) <==>
              !(g.legacy && s.queue.items == []) && c.autoCon && !c.showDark && s.imageQueue.items == []
    ensures Analysed(s, c, g).1 == Some(ReshapeError) || Analysed(s, c, g).1 == Some(EmptyReduction) ==>
              Analysed(s, c, g).0 == s
    ensures Analysed(s, c, g).1.Some? ==>
              Analysed(s, c, g).1 == Some(ReshapeError) || Analysed(s, c, g).1 == Some(EmptyReduction) ||
              Analysed(s, c, g).1 == Some(NotANumber)
  {
    var r := PlotFor(g.legacy, s.queue.items);
    if !Stacks(s.imageQueue.items) {
      assert Analysed(s, c, g) == (s, Some(ReshapeError));
    } else if r.Err? {
      assert Analysed(s, c, g) == (s, Some(EmptyReduction));
    } else if !c.autoCon {
      assert Analysed(s, c, g).1 == None;
    } else if !c.showDark && s.imageQueue.items == [] {
      assert Analysed(s, c, g).1 == Some(NotANumber);
    } else {
      assert Analysed(s, c, g).1 == None;
    }
  }

  /**
   * The histogram step changes only the histogram, its bins and the
   * display range, and so keeps the state consistent.
   */
  lemma AnalysedKeeps(s: State, c: Controls, g: Setup)
    requires Consistent(s)
    ensures var t := Analysed(s, c, g).0;
            && t == s.(histogram := t.histogram, bins := t.bins, maxPixVal := t.maxPixVal, minPixVal := t.minPixVal)
            && Consistent(t)
  {
    var r := PlotFor(g.legacy, s.queue.items);
    if !Stacks(s.imageQueue.items) || r.Err? {
      assert Analysed(s, c, g).0 == s;
    } else {
      var s1 := s.(histogram := r.value.counts, bins := r.value.bins);
      if !c.autoCon || (!c.showDark && s.imageQueue.items == []) {
        assert Analysed(s, c, g).0 == s1;
      } else {
        var t := Analysed(s, c, g).0;
        assert t == s1.(maxPixVal := t.maxPixVal, minPixVal := t.minPixVal);
      }
    }
  }

  /**
   * An image queue of frames of different shapes, or the older copy on an
   * empty histogram queue, leaves the histogram and bins unpublished.
   * Otherwise the histogram is that of the queued pixel values, one count
   * per bin; in the current copy it counts every one of them.
   */
  lemma AnalysedHistogram(s: State, c: Controls, g: Setup)
    ensures var t := Analysed(s, c, g).0;
            !Stacks(s.imageQueue.items) || (g.legacy && s.queue.items == []) ==>
              t.histogram == s.histogram && t.bins == s.bins
    ensures var t := Analysed(s, c, g).0;
            Stacks(s.imageQueue.items) && !(g.legacy && s.queue.items == []) ==>
              && PlotFor(g.legacy, s.queue.items).Ok?
              && t.histogram == PlotFor(g.legacy, s.queue.items).value.counts
              && t.bins == PlotFor(g.legacy, s.queue.items).value.bins
              && |t.bins| == |t.histogram|
              && (!g.legacy ==> Sum(t.histogram) == |s.queue.items|)
  {
    var t := Analysed(s, c, g).0;
    if !Stacks(s.imageQueue.items) || (g.legacy && s.queue.items == []) {
      assert t == s;
      return;
    }
    var p := PlotFor(g.legacy, s.queue.items).value;
    assert t.histogram == p.counts && t.bins == p.bins;
    if g.legacy {
      LegacyHistogramCountsAll(s.queue.items);
    } else {
      HistogramCountsAll(s.queue.items);
    }
  }

  /**
   * With `AutoCon` and no raise, the display range is 0 .. 50 on the noise
   * colormap, and otherwise ordered around the mean whenever the deviation
   * is not negative; without `AutoCon` it is left as it was.
   */
  lemma AnalysedContrast(s: State, c: Controls, g: Setup)
    ensures var (t, fault) := Analysed(s, c, g);
            && (!c.autoCon ==> t.maxPixVal == s.maxPixVal && t.minPixVal == s.minPixVal)
            && (c.autoCon && fault == None && c.noiseColormap ==> t.maxPixVal == 50 && t.minPixVal == 0)
            && (c.autoCon && fault == None && !c.noiseColormap && (forall fs :: g.stats(fs).1 >= 0.0) ==>
                  t.minPixVal <= t.maxPixVal)
  {
    var r := PlotFor(g.legacy, s.queue.items);
    if !Stacks(s.imageQueue.items) {
      assert Analysed(s, c, g) == (s, Some(ReshapeError));
    } else if r.Err? {
      assert Analysed(s, c, g) == (s, Some(EmptyReduction));
    } else if !c.autoCon || (!c.showDark && s.imageQueue.items == []) {
      assert Analysed(s, c, g).0 == s.(histogram := r.value.counts, bins := r.value.bins);
    } else {
      var m := if c.showDark then g.stats([s.dark.avg]) else g.stats(s.imageQueue.items);
      var range := if c.noiseColormap then (50, 0) else Contrast(m.0, m.1, c.applyDark);
      var t := Analysed(s, c, g).0;
      assert t.maxPixVal == range.0 && t.minPixVal == range.1;
      if !c.noiseColormap && (forall fs :: g.stats(fs).1 >= 0.0) {
        ContrastOrdered(m.0, m.1, c.applyDark);
      }
    }
  }

  /** A frame keeps the state consistent, whether it goes through or raises. */
  lemma FrameConsistent(s: State, c: Controls, g: Setup, img: Image)
    requires Consistent(s)
    ensures Consistent(Frame(s, c, g, img).0)
  {
    var dark := DarkStep(s.dark, c.numDarkReq, img, g.placeholder);
    if dark.Err? {
      assert Frame(s, c, g, img).0 == s;
      return;
    }
    var d := dark.value;
    var s1 := Toggled(s.(dark := d), c.applyDark);
    ToggledClears(s.(dark := d), c.applyDark);
    var corrected := Correct(img, d.avg, c.applyDark);
    if corrected.Err? {
      assert Frame(s, c, g, img).0 == s1;
    } else {
      assert Frame(s, c, g, img) == Presented(s1, c, g, corrected.value);
      PresentedConsistent(s1, c, g, corrected.value);
    }
  }

  /** Tracking never touches the noise queue. */
  lemma TrackedKeepsNoise(s: State, c: Controls, g: Setup, raw: Image)
    requires Consistent(s)
    ensures Tracked(s, c, g, raw).0.noiseQueue == s.noiseQueue
  {
    if InView(s.x, s.y, g.length, g.width) && Pixel(raw, s.x, s.y).Ok? {
      var v := Pixel(raw, s.x, s.y).value;
      var temp := if c.noiseColormap then s.colormap else raw;
      SampledRecords(s, v);
      ProfiledQueues(Sampled(s, v), c, temp, s.x, s.y, v, raw);
    }
  }

  /**
   * A frame whose display step goes through enters the noise queue as its
   * newest entry, whatever tracking and the histogram do after.
   */
  lemma PresentedQueuesFrame(s: State, c: Controls, g: Setup, raw: Image, shown: State)
    requires Consistent(s)
    requires Displayed(s, c, g, raw) == (shown, None)
    ensures var t := Presented(s, c, g, raw).0;
            && t.noiseQueue == Push(s.noiseQueue, raw)
            && t.noiseQueue.items != [] && t.noiseQueue.items[|t.noiseQueue.items| - 1] == raw
  {
    DisplayedKeeps(s, c, g, raw);
    var s3 := shown.(noiseQueue := Push(shown.noiseQueue, raw));
    PushFits(shown.noiseQueue, raw);
    var tracked := Tracked(s3, c, g, raw);
    TrackedConsistent(s3, c, g, raw);
    TrackedKeepsNoise(s3, c, g, raw);
    PushNewest(s.noiseQueue, raw);
    if tracked.1.Some? {
      assert Presented(s, c, g, raw).0 == tracked.0;
      return;
    }
    var analysed := Analysed(tracked.0, c, g);
    AnalysedKeeps(tracked.0, c, g);
    if analysed.1.Some? {
      assert Presented(s, c, g, raw).0 == analysed.0;
    } else {
      assert Presented(s, c, g, raw).0 == analysed.0.(updated := true);
    }
  }

  /**
   * With the cursor outside the guard, a frame leaves the histogram queue,
   * the image queue and the time plot as the display step left them.
   */
  lemma PresentedOutsideGuard(s: State, c: Controls, g: Setup, raw: Image, shown: State)
    requires Consistent(s)
    requires Displayed(s, c, g, raw) == (shown, None)
    requires !InView(shown.x, shown.y, g.length, g.width)
    ensures var t := Presented(s, c, g, raw).0;
            && t.queue == shown.queue && t.imageQueue == shown.imageQueue
            && t.timePlot == shown.timePlot && t.timeIndex == shown.timeIndex && t.nextIndex == shown.nextIndex
  {
    DisplayedKeeps(s, c, g, raw);
    var s3 := shown.(noiseQueue := Push(shown.noiseQueue, raw));
    PushFits(shown.noiseQueue, raw);
    TrackedGuard(s3, c, g, raw);
    var analysed := Analysed(s3, c, g);
    AnalysedKeeps(s3, c, g);
    if analysed.1.Some? {
      assert Presented(s, c, g, raw).0 == analysed.0;
    } else {
      assert Presented(s, c, g, raw).0 == analysed.0.(updated := true);
    }
  }


  /** Showing, tracking and analysing a frame keeps the state consistent, whether it goes through or raises. */
  lemma PresentedConsistent(s: State, c: Controls, g: Setup, raw: Image)
    requires Consistent(s)
    ensures Consistent(Presented(s, c, g, raw).0)
  {
    var shown := Displayed(s, c, g, raw);
    DisplayedKeeps(s, c, g, raw);
    if shown.1.Some? {
      assert Presented(s, c, g, raw).0 == shown.0;
      return;
    }
    var s3 := shown.0.(noiseQueue := Push(shown.0.noiseQueue, raw));
    PushFits(shown.0.noiseQueue, raw);
    var tracked := Tracked(s3, c, g, raw);
    TrackedConsistent(s3, c, g, raw);
    if tracked.1.Some? {
      assert Presented(s, c, g, raw).0 == tracked.0;
      return;
    }
    var analysed := Analysed(tracked.0, c, g);
    AnalysedKeeps(tracked.0, c, g);
    if analysed.1.Some? {
      assert Presented(s, c, g, raw).0 == analysed.0;
    } else {
      assert Presented(s, c, g, raw).0 == analysed.0.(updated := true);
    }
  }

  /**
   * A refresh over a noise queue of frames of different shapes raises
   * before anything else: `process` changes nothing, and the same frame
   * raises again at the next refresh while the queue is unchanged.
   */
  lemma RaggedRefreshChangesNothing(s: State, c: Controls, g: Setup, img: Image, refresh: bool)
    requires refresh && s.noiseQueue.items != [] && !Uniform(s.noiseQueue.items)
    ensures Step(s, c, g, img, refresh) == (s, Some(ReshapeError))
  {
    assert Refreshed(s, g, refresh) == Err(ReshapeError);
  }

  /** `process` keeps the state consistent. */
  lemma StepConsistent(s: State, c: Controls, g: Setup, img: Image, refresh: bool)
    requires Consistent(s)
    ensures Consistent(Step(s, c, g, img, refresh).0)
  {
    PreludeConsistent(s, c, g, refresh);
    if Prelude(s, c, g, refresh).Ok? {
      FrameConsistent(Prelude(s, c, g, refresh).value, c, g, img);
    }
  }

  // ---------------------------------------------------------------- the receiver

  class AnalysisReceiver {
    /** Rows (`length`) and columns (`width`) the cursor guard admits. */
    const length: int
    const width: int
    /** The older copy: crosshair arms of ten, no queue clears on restart, histogram bounds without default. */
    const legacy: bool
    /** What the model puts where numpy leaves `np.empty` or NaN content. */
    const placeholder: real
    /** The cells (numpy dtype) of the frames the descrambler returns. */
    const cell: Cell

    // Variables the viewer writes.
    var resetRequest: bool
    var timePlotMaxLen: nat
    var collectDark: bool
    var numDarkReq: int
    var darkReady: bool
    var applyDark: bool
    var showDark: bool
    var cursorX: int
    var cursorY: int
    var noiseColormap: bool
    var plotHorizontal: bool
    var plotVertical: bool
    var autoCon: bool
    var avgDark: Image

    // The receiver's own state.
    var queue: Buffer<real>
    var imageQueue: Buffer<Image>
    var noiseQueue: Buffer<Image>
    var timePlot: Buffer<int>
    var timeIndex: Buffer<int>
    var nextIndex: int
    var maxlen: nat
    var darkImgs: seq<Image>
    var numDarkCol: int
    var oldApplyDark: bool
    var x: int
    var y: int
    var colormap: Image
    var noiseColormapReady: bool

    // What it publishes.
    var data: Image
    var pixelScalar: int
    var pixelData: seq<int>
    var indexData: seq<int>
    var horizontal: seq<real>
    var vertical: seq<real>
    var histogram: seq<nat>
    var bins: seq<int>
    var maxPixVal: int
    var minPixVal: int
    var updated: bool

    /** The restart request and the dark collection. */
    function DarkFields(): (bool, DarkState)
      reads this`resetRequest, this`collectDark, this`darkReady, this`darkImgs, this`numDarkCol, this`avgDark
    {
      (resetRequest, DarkState(collectDark, darkReady, darkImgs, numDarkCol, avgDark))
    }

    /** The buffers and the time plot. */
    function BufferFields(): (Buffer<real>, Buffer<Image>, Buffer<Image>, Buffer<int>, Buffer<int>, int, nat)
      reads this`queue, this`imageQueue, this`noiseQueue, this`timePlot, this`timeIndex, this`nextIndex, this`maxlen
    {
      (queue, imageQueue, noiseQueue, timePlot, timeIndex, nextIndex, maxlen)
    }

    /** The recorded toggle, the cursor, the colormap and `Data`. */
    function ViewFields(): (bool, int, int, Image, bool, Image)
      reads this`oldApplyDark, this`x, this`y, this`colormap, this`noiseColormapReady, this`data
    {
      (oldApplyDark, x, y, colormap, noiseColormapReady, data)
    }

    /** The published plots, the histogram, the display range and `Updated`. */
    function PlotFields(): (int, seq<int>, seq<int>, seq<real>, seq<real>, seq<nat>, seq<int>, int, int, bool)
      reads this`pixelScalar, this`pixelData, this`indexData, this`horizontal, this`vertical
      reads this`histogram, this`bins, this`maxPixVal, this`minPixVal, this`updated
    {
      (pixelScalar, pixelData, indexData, horizontal, vertical, histogram, bins, maxPixVal, minPixVal, updated)
    }

    /** The fields `process` reads and writes, as one value. */
    function Snapshot(): State
      reads this`resetRequest, this`collectDark, this`darkReady, this`darkImgs, this`numDarkCol, this`avgDark
      reads this`queue, this`imageQueue, this`noiseQueue, this`timePlot, this`timeIndex, this`nextIndex, this`maxlen
      reads this`oldApplyDark, this`x, this`y, this`colormap, this`noiseColormapReady, this`data
      reads this`pixelScalar, this`pixelData, this`indexData, this`horizontal, this`vertical
      reads this`histogram, this`bins, this`maxPixVal, this`minPixVal, this`updated
    {
      var d, b, v, p := DarkFields(), BufferFields(), ViewFields(), PlotFields();
      State(d.0, d.1, b.0, b.1, b.2, b.3, b.4, b.5, b.6, v.0, v.1, v.2, v.3, v.4, v.5,
            p.0, p.1, p.2, p.3, p.4, p.5, p.6, p.7, p.8, p.9)
    }

    /** The viewer's controls that `process` only reads. */
    function Settings(): Controls
      reads this`timePlotMaxLen, this`numDarkReq, this`applyDark, this`showDark, this`cursorX, this`cursorY
      reads this`noiseColormap, this`plotHorizontal, this`plotVertical, this`autoCon
    {
      Controls(timePlotMaxLen, numDarkReq, applyDark, showDark, cursorX, cursorY, noiseColormap,
               plotHorizontal, plotVertical, autoCon)
    }

    /** What the receiver was built with, and numpy's reductions as given. */
    function Built(deviation: seq<Image> -> Image, stats: seq<Image> -> (real, real)): Setup
    {
      Setup(length, width, legacy, placeholder, deviation, stats, cell)
    }

    predicate Valid()
      reads this`resetRequest, this`collectDark, this`darkReady, this`darkImgs, this`numDarkCol, this`avgDark
      reads this`queue, this`imageQueue, this`noiseQueue, this`timePlot, this`timeIndex, this`nextIndex, this`maxlen
      reads this`oldApplyDark, this`x, this`y, this`colormap, this`noiseColormapReady, this`data
      reads this`pixelScalar, this`pixelData, this`indexData, this`horizontal, this`vertical
      reads this`histogram, this`bins, this`maxPixVal, this`minPixVal, this`updated
    {
      Consistent(Snapshot())
    }

    /** A new receiver: its state is `Initial`, the time plot primed by the restart loop, every control off. */
    constructor (length: int, width: int, legacy: bool, placeholder: real, cell: Cell)
      ensures Valid()
      ensures this.length == length && this.width == width && this.legacy == legacy && this.placeholder == placeholder
      ensures this.cell == cell
      ensures Snapshot() == Initial(placeholder)
      ensures Settings() == Controls(TimePlotCap, 0, false, false, 0, 0, false, false, false, false)
    {
      var p, q := PrimedTimePlot();
      this.length, this.width, this.legacy := length, width, legacy;
      this.placeholder, this.cell := placeholder, cell;
      resetRequest, timePlotMaxLen := false, TimePlotCap;
      collectDark, numDarkReq, darkReady := false, 0, false;
      applyDark, showDark := false, false;
      cursorX, cursorY := 0, 0;
      noiseColormap, plotHorizontal, plotVertical, autoCon := false, false, false, false;
      avgDark := [[placeholder]];
      queue, imageQueue, noiseQueue := Deque(QueueCap), Deque(ImageCap), Deque(NoiseCap);
      timePlot, timeIndex := p, q;
      nextIndex, maxlen := 0, TimePlotCap;
      darkImgs, numDarkCol, oldApplyDark := [], 0, false;
      x, y, colormap, noiseColormapReady := 0, 0, [], false;
      data, pixelScalar, pixelData, indexData := [], 0, [], [];
      horizontal, vertical, histogram, bins := [], [], [], [];
      maxPixVal, minPixVal, updated := 12000, 10000, false;
    }

    /** The restart request and the dark-collection fields take their values from `t`. */
    method StoreDark(t: State)
      modifies this`resetRequest, this`collectDark, this`darkReady, this`darkImgs, this`numDarkCol, this`avgDark
      ensures DarkFields() == (t.resetRequest, t.dark)
    {
      resetRequest := t.resetRequest;
      collectDark, darkReady, darkImgs, numDarkCol, avgDark := t.dark.collect, t.dark.ready, t.dark.frames, t.dark.count, t.dark.avg;
    }

    /** The buffers and the time plot take their values from `t`. */
    method StoreBuffers(t: State)
      modifies this`queue, this`imageQueue, this`noiseQueue, this`timePlot, this`timeIndex, this`nextIndex, this`maxlen
      ensures BufferFields() == (t.queue, t.imageQueue, t.noiseQueue, t.timePlot, t.timeIndex, t.nextIndex, t.maxlen)
    {
      queue, imageQueue, noiseQueue := t.queue, t.imageQueue, t.noiseQueue;
      timePlot, timeIndex, nextIndex, maxlen := t.timePlot, t.timeIndex, t.nextIndex, t.maxlen;
    }

    /** The recorded toggle, the cursor, the colormap and `Data` take their values from `t`. */
    method StoreView(t: State)
      modifies this`oldApplyDark, this`x, this`y, this`colormap, this`noiseColormapReady, this`data
      ensures ViewFields() == (t.oldApplyDark, t.x, t.y, t.colormap, t.noiseColormapReady, t.data)
    {
      oldApplyDark, x, y, colormap, noiseColormapReady, data := t.oldApplyDark, t.x, t.y, t.colormap, t.noiseColormapReady, t.data;
    }

    /** The published plots, histogram, display range and `Updated` take their values from `t`. */
    method StorePlots(t: State)
      modifies this`pixelScalar, this`pixelData, this`indexData, this`horizontal, this`vertical
      modifies this`histogram, this`bins, this`maxPixVal, this`minPixVal, this`updated
      ensures PlotFields() == (t.pixelScalar, t.pixelData, t.indexData, t.horizontal, t.vertical,
                               t.histogram, t.bins, t.maxPixVal, t.minPixVal, t.updated)
    {
      pixelScalar, pixelData, indexData := t.pixelScalar, t.pixelData, t.indexData;
      horizontal, vertical, histogram, bins := t.horizontal, t.vertical, t.histogram, t.bins;
      maxPixVal, minPixVal, updated := t.maxPixVal, t.minPixVal, t.updated;
    }

    /** The dark collection, the buffers and the time plot take their values from `t`. */
    method StoreCounters(t: State)
      modifies this`resetRequest, this`collectDark, this`darkReady, this`darkImgs, this`numDarkCol, this`avgDark
      modifies this`queue, this`imageQueue, this`noiseQueue, this`timePlot, this`timeIndex, this`nextIndex, this`maxlen
      ensures DarkFields() == (t.resetRequest, t.dark)
      ensures BufferFields() == (t.queue, t.imageQueue, t.noiseQueue, t.timePlot, t.timeIndex, t.nextIndex, t.maxlen)
    {
      StoreDark(t);
      StoreBuffers(t);
    }

    /** The view and the published values take their values from `t`. */
    method StoreOutputs(t: State)
      modifies this`oldApplyDark, this`x, this`y, this`colormap, this`noiseColormapReady, this`data
      modifies this`pixelScalar, this`pixelData, this`indexData, this`horizontal, this`vertical
      modifies this`histogram, this`bins, this`maxPixVal, this`minPixVal, this`updated
      ensures ViewFields() == (t.oldApplyDark, t.x, t.y, t.colormap, t.noiseColormapReady, t.data)
      ensures PlotFields() == (t.pixelScalar, t.pixelData, t.indexData, t.horizontal, t.vertical,
                               t.histogram, t.bins, t.maxPixVal, t.minPixVal, t.updated)
    {
      StoreView(t);
      StorePlots(t);
    }

    /** Every field `process` writes takes its value from `t`; the viewer's controls are outside its frame. */
    method Store(t: State)
      modifies this`resetRequest, this`collectDark, this`darkReady, this`darkImgs, this`numDarkCol, this`avgDark
      modifies this`queue, this`imageQueue, this`noiseQueue, this`timePlot, this`timeIndex, this`nextIndex, this`maxlen
      modifies this`oldApplyDark, this`x, this`y, this`colormap, this`noiseColormapReady, this`data
      modifies this`pixelScalar, this`pixelData, this`indexData, this`horizontal, this`vertical
      modifies this`histogram, this`bins, this`maxPixVal, this`minPixVal, this`updated
      ensures Snapshot() == t
    {
      StoreCounters(t);
      StoreOutputs(t);
      // The second half leaves the first as it was.
      assert DarkFields() == (t.resetRequest, t.dark);
      assert BufferFields() == (t.queue, t.imageQueue, t.noiseQueue, t.timePlot, t.timeIndex, t.nextIndex, t.maxlen);
    }

    /**
     * `process`: the colormap refresh, a requested restart, a capacity
     * change, then one frame through the analysis, as `Step` states it.  A
     * refresh over a noise queue of frames of different shapes raises
     * before anything changes; a later raise keeps the effects of the
     * steps before it, and the receiver stays consistent either way.  The
     * viewer's controls lie outside the method's frame, so they read the
     * same after as before; numpy's per-pixel deviation and `(mean, std)`
     * reduction come in as the parameters `deviation` and `stats`.
     */
    method Process(img: Image, refresh: bool, deviation: seq<Image> -> Image, stats: seq<Image> -> (real, real))
      returns (fault: Option<Fault>)
      requires Valid()
      modifies this`resetRequest, this`collectDark, this`darkReady, this`darkImgs, this`numDarkCol, this`avgDark
      modifies this`queue, this`imageQueue, this`noiseQueue, this`timePlot, this`timeIndex, this`nextIndex, this`maxlen
      modifies this`oldApplyDark, this`x, this`y, this`colormap, this`noiseColormapReady, this`data
      modifies this`pixelScalar, this`pixelData, this`indexData, this`horizontal, this`vertical
      modifies this`histogram, this`bins, this`maxPixVal, this`minPixVal, this`updated
      ensures Valid()
      ensures (Snapshot(), fault) == Step(old(Snapshot()), old(Settings()), Built(deviation, stats), img, refresh)
    {
      var c, g := Settings(), Built(deviation, stats);
      var s0 := Snapshot();
      PreludeConsistent(s0, c, g, refresh);
      var p := RunPrelude(s0, c, g, refresh);
      if p.Err? {
        return Some(p.fault);
      }
      var s := p.value;
      FrameConsistent(s, c, g, img);
      var t;
      t, fault := RunFrame(s, c, g, img);
      Store(t);
    }
  }
}
