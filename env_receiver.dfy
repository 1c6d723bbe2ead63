/**
 * The configurable environmental receiver: channel names are turned into
 * variable names by a chain of character replacements, and every frame of
 * 32- or 64-bit words advances a tick count and appends one reading and one
 * x value to each configured channel.
 */
module EnvReceivers {
  import opened Common
  import opened Bits

  // ---------------------------------------------------------------- the name sanitiser

  /** `s.replace(c, r)` for a one-character pattern. */
  function Replace(s: string, c: char, r: string): (t: string)
  {
    if s == [] then [] else (if s[0] == c then r else [s[0]]) + Replace(s[1..], c, r)
  }

  /** The replace chain that turns a channel name into a variable name. */
  function Sanitize(name: string): string
  {
    var a := Replace(Replace(name, ' ', "_"), '(', "_");
    var b := Replace(Replace(a, ')', ""), '[', "_");
    var c := Replace(Replace(b, ']', ""), '.', "");
    Replace(Replace(c, '-', ""), '%', "percent")
  }

  /** The characters the chain removes or rewrites. */
  predicate Special(c: char)
  {
    c == ' ' || c == '(' || c == ')' || c == '[' || c == ']' || c == '.' || c == '-' || c == '%'
  }

  /** What the chain does to one character, taken on its own. */
  function Subst(c: char): (t: string)
    ensures forall i :: 0 <= i < |t| ==> !Special(t[i])
  {
    if c == ' ' || c == '(' || c == '[' then "_"
    else if c == ')' || c == ']' || c == '.' || c == '-' then ""
    else if c == '%' then "percent"
    else [c]
  }

  /** The name rewritten character by character: the reference the chain is compared with. */
  function SubstAll(s: string): (t: string)
    ensures forall i :: 0 <= i < |t| ==> !Special(t[i])
  {
    if s == [] then [] else Subst(s[0]) + SubstAll(s[1..])
  }

  lemma {:induction false} ReplaceAppend(a: string, b: string, c: char, r: string)
    ensures Replace(a + b, c, r) == Replace(a, c, r) + Replace(b, c, r)
  {
    if a != [] {
      assert (a + b)[1..] == a[1..] + b;
      ReplaceAppend(a[1..], b, c, r);
    } else {
      assert a + b == b;
    }
  }

  /** A name without the pattern character is left alone. */
  lemma {:induction false} ReplaceAbsent(s: string, c: char, r: string)
    requires forall i :: 0 <= i < |s| ==> s[i] != c
    ensures Replace(s, c, r) == s
  {
    if s != [] {
      ReplaceAbsent(s[1..], c, r);
    }
  }

  /** The chain works on the two halves of a concatenation separately. */
  lemma SanitizeAppend(x: string, y: string)
    ensures Sanitize(x + y) == Sanitize(x) + Sanitize(y)
  {
    var x1, y1 := Replace(x, ' ', "_"), Replace(y, ' ', "_");
    ReplaceAppend(x, y, ' ', "_");
    var x2, y2 := Replace(x1, '(', "_"), Replace(y1, '(', "_");
    ReplaceAppend(x1, y1, '(', "_");
    var x3, y3 := Replace(x2, ')', ""), Replace(y2, ')', "");
    ReplaceAppend(x2, y2, ')', "");
    var x4, y4 := Replace(x3, '[', "_"), Replace(y3, '[', "_");
    ReplaceAppend(x3, y3, '[', "_");
    var x5, y5 := Replace(x4, ']', ""), Replace(y4, ']', "");
    ReplaceAppend(x4, y4, ']', "");
    var x6, y6 := Replace(x5, '.', ""), Replace(y5, '.', "");
    ReplaceAppend(x5, y5, '.', "");
    var x7, y7 := Replace(x6, '-', ""), Replace(y6, '-', "");
    ReplaceAppend(x6, y6, '-', "");
    ReplaceAppend(x7, y7, '%', "percent");
  }

  /** A name with no special character passes through the whole chain unchanged. */
  lemma SanitizePlain(s: string)
    requires forall i :: 0 <= i < |s| ==> !Special(s[i])
    ensures Sanitize(s) == s
  {
    ReplaceAbsent(s, ' ', "_");
    ReplaceAbsent(s, '(', "_");
    ReplaceAbsent(s, ')', "");
    ReplaceAbsent(s, '[', "_");
    ReplaceAbsent(s, ']', "");
    ReplaceAbsent(s, '.', "");
    ReplaceAbsent(s, '-', "");
    ReplaceAbsent(s, '%', "percent");
  }

  /** One character is replaced when it is the pattern and kept otherwise. */
  lemma ReplaceSingle(c: char, d: char, r: string)
    ensures Replace([c], d, r) == if c == d then r else [c]
  {
    assert [c][1..] == [];
  }

  /** On one character the chain is `Subst`. */
  lemma SanitizeChar(c: char)
    ensures Sanitize([c]) == Subst(c)
  {
    var t := Subst(c);
    ReplaceSingle(c, ' ', "_");
    ReplaceSingle(c, '(', "_");
    ReplaceSingle(c, ')', "");
    ReplaceSingle(c, '[', "_");
    ReplaceSingle(c, ']', "");
    ReplaceSingle(c, '.', "");
    ReplaceSingle(c, '-', "");
    ReplaceSingle(c, '%', "percent");
    ReplaceAbsent(t, ' ', "_");
    ReplaceAbsent(t, '(', "_");
    ReplaceAbsent(t, ')', "");
    ReplaceAbsent(t, '[', "_");
    ReplaceAbsent(t, ']', "");
    ReplaceAbsent(t, '.', "");
    ReplaceAbsent(t, '-', "");
    ReplaceAbsent(t, '%', "percent");
  }

  /** The replace chain rewrites every character independently, as `SubstAll` says. */
  lemma {:induction false} SanitizeIsSubstAll(s: string)
    ensures Sanitize(s) == SubstAll(s)
  {
    if s == [] {
      SanitizePlain(s);
    } else {
      assert s == [s[0]] + s[1..];
      SanitizeAppend([s[0]], s[1..]);
      SanitizeChar(s[0]);
      SanitizeIsSubstAll(s[1..]);
    }
  }

  /** A sanitised name holds none of ' ', '(', ')', '[', ']', '.', '-', '%'. */
  lemma SanitizeClean(s: string)
    ensures forall i :: 0 <= i < |Sanitize(s)| ==> !Special(Sanitize(s)[i])
  {
    SanitizeIsSubstAll(s);
  }

  /** Sanitising twice is sanitising once. */
  lemma SanitizeIdempotent(s: string)
    ensures Sanitize(Sanitize(s)) == Sanitize(s)
  {
    SanitizeClean(s);
    SanitizePlain(Sanitize(s));
  }

  // ---------------------------------------------------------------- payload words

  /** `getNumpy(...).view(np.uint64)` or `.view(np.uint32)`: little-endian words, failing on a partial word. */
  function Words(bytes: seq<Byte>, width: nat): (res: Result<seq<nat>>)
    requires width > 0
    ensures res.Err? <==> |bytes| % width != 0
    ensures res.Ok? ==> |res.value| * width == |bytes|
  {
    if |bytes| % width != 0 then Err(ReshapeError)
    else
      var n := |bytes| / width;
      var rows := Reshape(bytes, n, width);
      Ok(seq(n, k requires 0 <= k < n => LittleEndian(rows[k])))
  }

  /** `0x0fffffff`: the 28-bit tick field of word 0. */
  const TickMask: nat := 0x0fff_ffff

  /** The tick increment of word 0: its low 28 bits. */
  lemma TickField(w: nat)
    ensures And(w, TickMask) == w % 0x1000_0000
  {
    assert Pow2(4) == 16 by {
      assert Pow2(1) == 2 && Pow2(2) == 4 && Pow2(3) == 8;
    }
    assert Pow2(8) == 256 by {
      assert Pow2(5) == 32 && Pow2(6) == 64 && Pow2(7) == 128;
    }
    assert Pow2(12) == 4096 by {
      assert Pow2(9) == 512 && Pow2(10) == 1024 && Pow2(11) == 2048;
    }
    assert Pow2(16) == 0x1_0000 by {
      assert Pow2(13) == 0x2000 && Pow2(14) == 0x4000 && Pow2(15) == 0x8000;
    }
    assert Pow2(20) == 0x10_0000 by {
      assert Pow2(17) == 0x2_0000 && Pow2(18) == 0x4_0000 && Pow2(19) == 0x8_0000;
    }
    assert Pow2(24) == 0x100_0000 by {
      assert Pow2(21) == 0x20_0000 && Pow2(22) == 0x40_0000 && Pow2(23) == 0x80_0000;
    }
    assert Pow2(28) == 0x1000_0000 by {
      assert Pow2(25) == 0x200_0000 && Pow2(26) == 0x400_0000 && Pow2(27) == 0x800_0000;
    }
    AndLowMask(w, 28);
  }

  // ---------------------------------------------------------------- per-channel histories

  /**
   * The x axis of one channel: it starts at 0, never decreases and never
   * passes the tick count.
   */
  ghost predicate XAxis(xs: seq<int>, tick: int)
  {
    (|xs| > 0 ==> xs[0] == 0) &&
    (forall k :: 0 <= k < |xs| ==> 0 <= xs[k] <= tick) &&
    (forall k, l :: 0 <= k < l < |xs| ==> xs[k] <= xs[l])
  }

  /** The x value appended next: 0 for an empty axis, the tick count otherwise. */
  function NextX(xs: seq<int>, tick: int): int
  {
    if |xs| == 0 then 0 else tick
  }

  /** Appending `NextX` keeps an axis well formed, at any tick count not below the old one. */
  lemma XAxisAppend(xs: seq<int>, tick: int, tick': int)
    requires XAxis(xs, tick) && tick <= tick' && 0 <= tick'
    ensures XAxis(xs + [NextX(xs, tick')], tick')
  {
  }

  /** An axis stays well formed when the tick count grows. */
  lemma XAxisGrow(xs: seq<int>, tick: int, tick': int)
    requires XAxis(xs, tick) && tick <= tick'
    ensures XAxis(xs, tick')
  {
  }

  /** The first channel, from `from` on, whose word `id + 1` is missing from the payload (or the channel count). */
  function Served(ids: seq<nat>, payload: seq<nat>, from: nat): (n: nat)
    requires from <= |ids|
    ensures from <= n <= |ids|
    ensures forall i :: from <= i < n ==> ids[i] + 1 < |payload|
    ensures n < |ids| ==> ids[n] + 1 >= |payload|
    decreases |ids| - from
  {
    if from == |ids| || ids[from] + 1 >= |payload| then from else Served(ids, payload, from + 1)
  }

  /** The converted reading of each of the first `n` channels. */
  function Sample(ids: seq<nat>, convert: (nat, nat) -> real, payload: seq<nat>, n: nat): (xs: seq<real>)
    requires n <= |ids| && forall i :: 0 <= i < n ==> ids[i] + 1 < |payload|
    ensures |xs| == n
  {
    seq(n, i requires 0 <= i < n => convert(i, payload[ids[i] + 1]))
  }

  /** The readings of one more channel extend the readings so far. */
  lemma SampleStep(ids: seq<nat>, convert: (nat, nat) -> real, payload: seq<nat>, n: nat)
    requires n < |ids| && forall i :: 0 <= i <= n ==> ids[i] + 1 < |payload|
    ensures Sample(ids, convert, payload, n + 1) == Sample(ids, convert, payload, n) + [convert(n, payload[ids[n] + 1])]
  {
  }

  /** Channels up to `n` read words the payload has and channel `n` does not: `n` is where the loop stops. */
  lemma {:induction false} ServedAt(ids: seq<nat>, payload: seq<nat>, from: nat, n: nat)
    requires from <= n <= |ids|
    requires forall i :: from <= i < n ==> ids[i] + 1 < |payload|
    requires n == |ids| || ids[n] + 1 >= |payload|
    ensures Served(ids, payload, from) == n
    decreases n - from
  {
    if from < n {
      ServedAt(ids, payload, from + 1, n);
    }
  }

  /** The x value each of the first `n` channels appends. */
  function NextXs(axes: seq<seq<int>>, tick: int, n: nat): (xs: seq<int>)
    requires n <= |axes|
    ensures |xs| == n
  {
    seq(n, i requires 0 <= i < n => NextX(axes[i], tick))
  }

  lemma NextXsStep(axes: seq<seq<int>>, tick: int, n: nat)
    requires n < |axes|
    ensures NextXs(axes, tick, n + 1) == NextXs(axes, tick, n) + [NextX(axes[n], tick)]
  {
  }

  /** `np.append` of `xs[i]` to history `i`, for the first `|xs|` histories. */
  function AppendEach<T>(cols: seq<seq<T>>, xs: seq<T>): (r: seq<seq<T>>)
    requires |xs| <= |cols|
    ensures |r| == |cols|
  {
    seq(|cols|, i requires 0 <= i < |cols| => if i < |xs| then cols[i] + [xs[i]] else cols[i])
  }

  /** The first `|xs|` values replaced by `xs`. */
  function Overwrite<T>(vals: seq<T>, xs: seq<T>): (r: seq<T>)
    requires |xs| <= |vals|
    ensures |r| == |vals|
  {
    xs + vals[|xs|..]
  }

  lemma AppendEachStep<T>(cols: seq<seq<T>>, xs: seq<T>, x: T)
    requires |xs| < |cols|
    ensures AppendEach(cols, xs)[|xs| := cols[|xs|] + [x]] == AppendEach(cols, xs + [x])
  {
  }

  lemma OverwriteStep<T>(vals: seq<T>, xs: seq<T>, x: T)
    requires |xs| < |vals|
    ensures Overwrite(vals, xs)[|xs| := x] == Overwrite(vals, xs + [x])
  {
  }

  /** Readings and x values pair up channel by channel, and every x axis is well formed. */
  ghost predicate Shaped(data: seq<seq<real>>, dataX: seq<seq<int>>, tick: int)
  {
    |data| == |dataX| &&
    forall i :: 0 <= i < |data| ==> |data[i]| == |dataX[i]| && XAxis(dataX[i], tick)
  }

  /** Well-formed histories stay so when the tick count grows. */
  lemma ShapedGrow(data: seq<seq<real>>, dataX: seq<seq<int>>, tick: int, tick': int)
    requires Shaped(data, dataX, tick) && tick <= tick'
    ensures Shaped(data, dataX, tick')
  {
    forall i | 0 <= i < |data|
      ensures XAxis(dataX[i], tick')
    {
      XAxisGrow(dataX[i], tick, tick');
    }
  }

  /** Well-formed histories stay so when the first `|ys|` channels append a reading and their next x value. */
  lemma ShapedAppend(data: seq<seq<real>>, dataX: seq<seq<int>>, tick: int, ys: seq<real>)
    requires Shaped(data, dataX, tick) && 0 <= tick && |ys| <= |data|
    ensures Shaped(AppendEach(data, ys), AppendEach(dataX, NextXs(dataX, tick, |ys|)), tick)
  {
    var xs := NextXs(dataX, tick, |ys|);
    forall i | 0 <= i < |data|
      ensures XAxis(AppendEach(dataX, xs)[i], tick)
    {
      if i < |ys| {
        XAxisAppend(dataX[i], tick, tick);
      }
    }
  }

  /**
   * The channel loop of `process`: channel after channel appends its
   * converted word and its next x value and takes the reading as its
   * value, up to the first channel whose word is missing.
   */
  method ChannelLoop(ids: seq<nat>, convert: (nat, nat) -> real, payload: seq<nat>, tick: int,
                     data: seq<seq<real>>, dataX: seq<seq<int>>, values: seq<real>)
    returns (n: nat, data': seq<seq<real>>, dataX': seq<seq<int>>, values': seq<real>)
    requires |data| == |ids| && |dataX| == |ids| && |values| == |ids|
    ensures n == Served(ids, payload, 0)
    ensures data' == AppendEach(data, Sample(ids, convert, payload, n))
    ensures dataX' == AppendEach(dataX, NextXs(dataX, tick, n))
    ensures values' == Overwrite(values, Sample(ids, convert, payload, n))
  {
    n, data', dataX', values' := 0, data, dataX, values;
    while n < |ids|
      invariant n <= |ids|
      invariant forall i :: 0 <= i < n ==> ids[i] + 1 < |payload|
      invariant data' == AppendEach(data, Sample(ids, convert, payload, n))
      invariant dataX' == AppendEach(dataX, NextXs(dataX, tick, n))
      invariant values' == Overwrite(values, Sample(ids, convert, payload, n))
    {
      if ids[n] + 1 >= |payload| {
        break;
      }
      var newData := convert(n, payload[ids[n] + 1]);
      SampleStep(ids, convert, payload, n);
      AppendEachStep(data, Sample(ids, convert, payload, n), newData);
      data' := data'[n := data'[n] + [newData]];
      var xarr := dataX'[n];
      var x := if |xarr| == 0 then 0 else tick;
      NextXsStep(dataX, tick, n);
      AppendEachStep(dataX, NextXs(dataX, tick, n), x);
      dataX' := dataX'[n := xarr + [x]];
      OverwriteStep(values, Sample(ids, convert, payload, n), newData);
      values' := values'[n := newData];
      n := n + 1;
    }
    ServedAt(ids, payload, 0, n);
  }

  // ---------------------------------------------------------------- the receiver

  class EnvReceiver {
    /** `configChannels[i]['id']`: channel `i` reads payload word id + 1. */
    const ids: seq<nat>
    /** `configChannels[i]['ptr']`: the sanitised variable name of channel `i`. */
    const names: seq<string>
    /** `payloadElementSize == 8`. */
    const wide: bool
    /** `clockT is not None`. */
    const clocked: bool
    /** `conv(rawToData(word))` of channel `i`: the configured conversion of a raw word. */
    const convert: (nat, nat) -> real

    var tickCount: int
    var data: seq<seq<real>>
    var dataX: seq<seq<int>>
    var values: seq<real>
    var ellapsed: int

    /** One history, x axis and value per channel; readings and x values pair up; every x axis is well formed. */
    ghost predicate Valid()
      reads this
    {
      |names| == |ids| && |data| == |ids| && |dataX| == |ids| && |values| == |ids| &&
      0 <= tickCount && Shaped(data, dataX, tickCount)
    }

    /** Bytes per payload word. */
    function Width(): (w: nat)
      reads this
      ensures w == 4 || w == 8
    {
      if wide then 8 else 4
    }

    /** The frame is viewed as words and, with a clock, has the word 0 the tick update reads. */
    predicate Accepted(bytes: seq<Byte>)
      reads this
    {
      var view := Words(bytes, Width());
      view.Ok? && (!clocked || view.value != [])
    }

    /** The tick count after a frame whose words are `payload`. */
    function NextTick(payload: seq<nat>): (t: int)
      reads this
      requires !clocked || |payload| > 0
      ensures t >= tickCount + (if clocked then 0 else 1)
    {
      if clocked then tickCount + And(payload[0], TickMask) else tickCount + 1
    }

    /** Every channel starts with empty histories and the value 0; names are sanitised. */
    constructor (channelNames: seq<string>, channelIds: seq<nat>, wide: bool, clocked: bool, convert: (nat, nat) -> real)
      requires |channelNames| == |channelIds|
      ensures Valid()
      ensures names == seq(|channelNames|, i requires 0 <= i < |channelNames| => Sanitize(channelNames[i]))
      ensures ids == channelIds && this.wide == wide && this.clocked == clocked && this.convert == convert
      ensures tickCount == 0 && ellapsed == 0
      ensures data == seq(|channelIds|, _ => []) && dataX == seq(|channelIds|, _ => [])
      ensures values == seq(|channelIds|, _ => 0.0)
    {
      ids := channelIds;
      names := seq(|channelNames|, i requires 0 <= i < |channelNames| => Sanitize(channelNames[i]));
      this.wide := wide;
      this.clocked := clocked;
      this.convert := convert;
      tickCount := 0;
      data := seq(|channelIds|, _ => []);
      dataX := seq(|channelIds|, _ => []);
      values := seq(|channelIds|, _ => 0.0);
      ellapsed := 0;
    }

    /**
     * `process` on the frame viewed as words: the tick count advances by the
     * 28-bit tick field of word 0 with a clock (an empty frame fails there)
     * and by 1 without; then the served channels take their readings; with
     * every channel served, `Ellapsed` follows the tick count with a clock
     * and counts the frame without one, and otherwise the frame stops at the
     * missing word.
     */
    method Receive(payload: seq<nat>) returns (fault: Option<Fault>)
      requires Valid()
      modifies this
      ensures Valid()
      ensures clocked && payload == [] ==> fault == Some(IndexError) && unchanged(this)
      ensures !clocked || payload != [] ==> tickCount == old(NextTick(payload))
      ensures !clocked || payload != [] ==>
                var n := Served(ids, payload, 0);
                && (fault == None <==> n == |ids|)
                && (fault != None ==> fault == Some(IndexError))
                && data == AppendEach(old(data), Sample(ids, convert, payload, n))
                && dataX == AppendEach(old(dataX), NextXs(old(dataX), tickCount, n))
                && values == Overwrite(old(values), Sample(ids, convert, payload, n))
                && ellapsed == (if n < |ids| then old(ellapsed) else if clocked then tickCount else old(ellapsed) + 1)
    {
      if clocked && |payload| == 0 {
        return Some(IndexError);
      }
      var tick := NextTick(payload);
      ShapedGrow(data, dataX, tickCount, tick);
      var n, data', dataX', values' := ChannelLoop(ids, convert, payload, tick, data, dataX, values);
      ShapedAppend(data, dataX, tick, Sample(ids, convert, payload, n));
      var served := n == |ids|;
      tickCount, data, dataX, values := tick, data', dataX', values';
      if served {
        ellapsed := if clocked then tick else ellapsed + 1;
      }
      fault := if served then None else Some(IndexError);
    }

    /**
     * `process`: the frame is viewed as 64-bit or 32-bit words, a partial
     * word failing the view before anything changes, and the words are
     * received as `Receive` states.
     */
    method Process(bytes: seq<Byte>) returns (fault: Option<Fault>)
      requires Valid()
      modifies this
      ensures Valid()
      ensures Words(bytes, Width()).Err? ==> fault == Some(ReshapeError) && unchanged(this)
      ensures Words(bytes, Width()).Ok? && !Accepted(bytes) ==> fault == Some(IndexError) && unchanged(this)
      ensures Accepted(bytes) ==> tickCount == old(NextTick(Words(bytes, Width()).value))
      ensures Accepted(bytes) ==>
                var payload := Words(bytes, Width()).value;
                var n := Served(ids, payload, 0);
                && (fault == None <==> n == |ids|)
                && (fault != None ==> fault == Some(IndexError))
                && data == AppendEach(old(data), Sample(ids, convert, payload, n))
                && dataX == AppendEach(old(dataX), NextXs(old(dataX), tickCount, n))
                && values == Overwrite(old(values), Sample(ids, convert, payload, n))
                && ellapsed == (if n < |ids| then old(ellapsed) else if clocked then tickCount else old(ellapsed) + 1)
    {
      var view := Words(bytes, Width());
      if view.Err? {
        return Some(view.fault);
      }
      fault := Receive(view.value);
    }

    /**
     * `Clear`: for each channel the tick count is reset and the channel's
     * readings and x values emptied and its value zeroed; with no channels
     * the loop body never runs and nothing changes.
     */
    method Clear()
      requires Valid()
      modifies this
      ensures Valid()
      ensures |ids| == 0 ==> unchanged(this)
      ensures |ids| > 0 ==> tickCount == 0
      ensures data == seq(|ids|, _ => []) && dataX == seq(|ids|, _ => [])
      ensures values == seq(|ids|, _ => 0.0)
      ensures ellapsed == old(ellapsed)
    {
      var i := 0;
      while i < |ids|
        invariant 0 <= i <= |ids|
        invariant |data| == |ids| && |dataX| == |ids| && |values| == |ids|
        invariant i == 0 ==> unchanged(this)
        invariant i > 0 ==> tickCount == 0
        invariant forall k :: 0 <= k < |ids| ==> data[k] == if k < i then [] else old(data)[k]
        invariant forall k :: 0 <= k < |ids| ==> dataX[k] == if k < i then [] else old(dataX)[k]
        invariant forall k :: 0 <= k < |ids| ==> values[k] == if k < i then 0.0 else old(values)[k]
        invariant ellapsed == old(ellapsed)
      {
        tickCount := 0;
        data := data[i := []];
        dataX := dataX[i := []];
        values := values[i := 0.0];
        i := i + 1;
      }
    }
  }
}
