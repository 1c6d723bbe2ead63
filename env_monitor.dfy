/**
 * The environmental-monitor receiver: a payload of a 32-byte header and
 * eight little-endian 32-bit words, stored into an `int32` array, with the
 * two temperatures and the relative humidity converted from hundredths, and
 * published to eight named fields.
 */
module EnvMonitoring {
  import opened Common
  import opened Bits
  import opened Buffers

  /** Bytes removed from the front of the payload before the words. */
  const HeaderBytes: nat := 32

  /** Number of 32-bit channel words. */
  const ChannelCount: nat := 8

  /** Channels 0..2 (the two temperatures and the humidity) arrive in hundredths. */
  const Scaled: nat := 3

  /** `rawData[j*4:(j+1)*4]`: the bytes of word `j`, clipped like a Python slice. */
  function WordBytes(body: seq<Byte>, j: nat): (b: seq<Byte>)
    ensures |b| <= 4
    ensures |body| >= 4 * j + 4 ==> b == body[4 * j .. 4 * j + 4]
    ensures |body| <= 4 * j ==> b == []
  {
    Slice(body, 4 * j, 4 * j + 4)
  }

  /** Byte `i` of `s`, or 0 past its end. */
  function ByteAt(s: seq<Byte>, i: nat): (b: nat)
    ensures b < 256
  {
    if i < |s| then s[i] else 0
  }

  /**
   * The unsigned little-endian value of bytes i .. i + 3, a missing byte
   * counting as 0: what `int.from_bytes` gives for the clipped slice.
   */
  function Word32(s: seq<Byte>, i: nat): (u: nat)
    ensures u < 0x1_0000_0000
  {
    ByteAt(s, i) + 0x100 * ByteAt(s, i + 1) + 0x1_0000 * ByteAt(s, i + 2) + 0x100_0000 * ByteAt(s, i + 3)
  }

  /** Up to four bytes decode little-endian to their `Word32`. */
  lemma {:induction false} LittleEndianUpTo4(b: seq<Byte>)
    requires |b| <= 4
    ensures LittleEndian(b) == Word32(b, 0)
  {
    if b != [] {
      LittleEndianUpTo4(b[1..]);
      assert ByteAt(b, 1) == ByteAt(b[1..], 0) && ByteAt(b, 2) == ByteAt(b[1..], 1) && ByteAt(b, 3) == ByteAt(b[1..], 2);
    }
  }

  /** `Word32` at 4 j is `int.from_bytes` of the clipped slice of word `j`. */
  lemma Word32Decodes(body: seq<Byte>, j: nat)
    ensures Word32(body, 4 * j) == LittleEndian(WordBytes(body, j))
  {
    var b := WordBytes(body, j);
    LittleEndianUpTo4(b);
    assert ByteAt(body, 4 * j) == ByteAt(b, 0) && ByteAt(body, 4 * j + 1) == ByteAt(b, 1);
    assert ByteAt(body, 4 * j + 2) == ByteAt(b, 2) && ByteAt(body, 4 * j + 3) == ByteAt(b, 3);
  }

  /** `envData[j] = int.from_bytes(...)`: word `j` as the 32-bit cell holds it. */
  function Raw(body: seq<Byte>, j: nat): (v: int)
    ensures -0x8000_0000 <= v < 0x8000_0000
  {
    Int32(Word32(body, 4 * j))
  }

  /** The value published for channel `j`: hundredths truncated to whole units for channels 0..2. */
  function Published(body: seq<Byte>, j: nat): int
  {
    if j < Scaled then TruncDiv(Raw(body, j), 100) else Raw(body, j)
  }

  /** The eight published values of the words after the header. */
  function Channels(body: seq<Byte>): (r: seq<int>)
    ensures |r| == ChannelCount
  {
    seq(ChannelCount, j requires 0 <= j < ChannelCount => Published(body, j))
  }

  /** The eight published values of a payload that carries the whole header. */
  function Readings(payload: seq<Byte>): (r: seq<int>)
    requires |payload| >= HeaderBytes
    ensures |r| == ChannelCount
  {
    Channels(payload[HeaderBytes..])
  }

  // ---------------------------------------------------------------- the inverse: encoding

  /** `u` as `n` little-endian bytes. */
  function LeBytes(u: nat, n: nat): (b: seq<Byte>)
    ensures |b| == n
  {
    if n == 0 then [] else [u % 256] + LeBytes(u / 256, n - 1)
  }

  /** Little-endian decoding undoes `LeBytes` for every value that fits. */
  lemma {:induction false} LeBytesDecode(u: nat, n: nat)
    requires u < Pow256(n)
    ensures LittleEndian(LeBytes(u, n)) == u
  {
    if n > 0 {
      var b := LeBytes(u, n);
      assert b[1..] == LeBytes(u / 256, n - 1);
      QuotientBelow(u, 256, Pow256(n - 1));
      LeBytesDecode(u / 256, n - 1);
    }
  }

  /** The bit pattern of a 32-bit two's-complement value. */
  function Unsigned32(v: int): (u: nat)
    requires -0x8000_0000 <= v < 0x8000_0000
    ensures u < 0x1_0000_0000
  {
    if v >= 0 then v else v + 0x1_0000_0000
  }

  /** A sequence of 32-bit values laid out as consecutive little-endian words. */
  function Encode(vs: seq<int>): (body: seq<Byte>)
    requires forall k :: 0 <= k < |vs| ==> -0x8000_0000 <= vs[k] < 0x8000_0000
    ensures |body| == 4 * |vs|
  {
    if vs == [] then [] else LeBytes(Unsigned32(vs[0]), 4) + Encode(vs[1..])
  }

  /** A slice lying wholly in the second part of a concatenation. */
  lemma SliceAfter<T>(a: seq<T>, b: seq<T>, i: nat, len: nat)
    requires |a| <= i && i + len <= |a| + |b|
    ensures (a + b)[i .. i + len] == b[i - |a| .. i - |a| + len]
  {
  }

  /** Word `j` of an encoding is the four bytes of `vs[j]`. */
  lemma {:induction false} EncodeWord(vs: seq<int>, j: nat)
    requires forall k :: 0 <= k < |vs| ==> -0x8000_0000 <= vs[k] < 0x8000_0000
    requires j < |vs|
    ensures Encode(vs)[4 * j .. 4 * j + 4] == LeBytes(Unsigned32(vs[j]), 4)
  {
    var head := LeBytes(Unsigned32(vs[0]), 4);
    assert Encode(vs) == head + Encode(vs[1..]);
    if j > 0 {
      EncodeWord(vs[1..], j - 1);
      SliceAfter(head, Encode(vs[1..]), 4 * j, 4);
    }
  }

  /** Decoding word `j` of an encoding gives back `vs[j]`. */
  lemma RawEncode(vs: seq<int>, j: nat)
    requires forall k :: 0 <= k < |vs| ==> -0x8000_0000 <= vs[k] < 0x8000_0000
    requires j < |vs|
    ensures Raw(Encode(vs), j) == vs[j]
  {
    EncodeWord(vs, j);
    Word32Decodes(Encode(vs), j);
    assert Pow256(4) == 0x1_0000_0000 by {
      assert Pow256(2) == 0x1_0000;
    }
    LeBytesDecode(Unsigned32(vs[j]), 4);
  }

  /**
   * Whatever the header, a payload carrying eight encoded int32 readings is
   * published as those readings, with channels 0..2 divided by 100 and
   * truncated toward zero.
   */
  lemma ReadingsEncode(header: seq<Byte>, vs: seq<int>)
    requires |header| == HeaderBytes && |vs| == ChannelCount
    requires forall k :: 0 <= k < |vs| ==> -0x8000_0000 <= vs[k] < 0x8000_0000
    ensures Readings(header + Encode(vs)) == seq(ChannelCount, j requires 0 <= j < ChannelCount => if j < Scaled then TruncDiv(vs[j], 100) else vs[j])
  {
    assert (header + Encode(vs))[HeaderBytes..] == Encode(vs);
    forall j | 0 <= j < ChannelCount
      ensures Raw(Encode(vs), j) == vs[j]
    {
      RawEncode(vs, j);
    }
  }

  // ---------------------------------------------------------------- the receiver

  /** A sequence of eight is the display of its elements. */
  lemma EightElements<T>(s: seq<T>)
    requires |s| == 8
    ensures s == [s[0], s[1], s[2], s[3], s[4], s[5], s[6], s[7]]
  {
  }

  class EnvMonitor {
    var strongBackTemp: int
    var ambientTemp: int
    var relativeHum: int
    var asicACurrent: int
    var asicDCurrent: int
    var guardRingCurrent: int
    var vccA: int
    var vccD: int
    var updated: bool

    /** The eight published fields in channel order. */
    function Fields(): (f: seq<int>)
      reads this
      ensures |f| == ChannelCount
    {
      [strongBackTemp, ambientTemp, relativeHum, asicACurrent, asicDCurrent, guardRingCurrent, vccA, vccD]
    }

    /** Every field starts at 0. */
    constructor ()
      ensures Fields() == [0, 0, 0, 0, 0, 0, 0, 0] && !updated
    {
      strongBackTemp, ambientTemp, relativeHum := 0, 0, 0;
      asicACurrent, asicDCurrent, guardRingCurrent := 0, 0, 0;
      vccA, vccD := 0, 0;
      updated := false;
    }

    /** The `int32` array of the eight words after the header, with channels 0..2 divided by 100. */
    static method ReadChannels(body: seq<Byte>) returns (envData: array<int>)
      ensures fresh(envData)
      ensures envData[..] == Channels(body)
    {
      envData := new int[ChannelCount];
      var j := 0;
      while j < ChannelCount
        invariant 0 <= j <= ChannelCount
        invariant forall k :: 0 <= k < j ==> envData[k] == Raw(body, k)
      {
        envData[j] := Raw(body, j);
        j := j + 1;
      }
      envData[0] := TruncDiv(envData[0], 100);
      envData[1] := TruncDiv(envData[1], 100);
      envData[2] := TruncDiv(envData[2], 100);
    }

    /** The eight `set` calls: the fields take the values in channel order and `Updated` is raised. */
    method Publish(values: seq<int>)
      requires |values| == ChannelCount
      modifies this
      ensures Fields() == values && updated
    {
      strongBackTemp, ambientTemp, relativeHum := values[0], values[1], values[2];
      asicACurrent, asicDCurrent, guardRingCurrent := values[3], values[4], values[5];
      vccA, vccD := values[6], values[7];
      updated := true;
      EightElements(values);
    }

    /**
     * `process`: the 32 header bytes are popped from a copy of the payload,
     * the eight words read into an int32 array, channels 0..2 divided by
     * 100, and all eight published.  A payload shorter than the header
     * raises on the failing pop and publishes nothing.
     */
    method Process(payload: seq<Byte>) returns (fault: Option<Fault>)
      modifies this
      ensures |payload| < HeaderBytes ==> fault == Some(IndexError) && unchanged(this)
      ensures |payload| >= HeaderBytes ==> fault == None && Fields() == Readings(payload) && updated
    {
      var rawData := new ByteBuffer(payload);
      var ok := rawData.DropHeader(HeaderBytes);
      if !ok {
        return Some(IndexError);
      }
      var body := rawData.bytes;
      assert body == payload[HeaderBytes..];
      var envData := ReadChannels(body);
      Publish(envData[..]);
      fault := None;
    }
  }
}
