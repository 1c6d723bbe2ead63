/**
 * 12-bit sample unpacking shared by the ePixUHR, ePixUHR MHz-mode and
 * SparkPix-RT descramblers (`read_uint12` in each of them): three bytes carry
 * two 12-bit samples.  The payload is cut into fixed-size words after a
 * 16-byte header; every word is byte-reversed and then unpacked, and sample
 * `l` of word `j` is sample `j` of lane `l`.
 */
module Unpack12 {
  import opened Common

  ghost predicate AreBytes(s: seq<int>)
  {
    forall i :: 0 <= i < |s| ==> 0 <= s[i] < 256
  }

  ghost predicate Are12Bit(s: seq<int>)
  {
    forall i :: 0 <= i < |s| ==> 0 <= s[i] < 4096
  }

  /**
   * `read_uint12`: each triple (b0, b1, b2) becomes (b0 << 4) + (b1 >> 4) and
   * ((b1 % 16) << 8) + b2, in that order.
   */
  function ReadUint12(b: seq<int>): (v: seq<int>)
    requires |b| % 3 == 0
    requires AreBytes(b)
    ensures |v| == |b| / 3 * 2
    ensures Are12Bit(v)
    decreases |b|
  {
    if b == [] then []
    else [b[0] * 16 + b[1] / 16, (b[1] % 16) * 256 + b[2]] + ReadUint12(b[3..])
  }

  /** The packing the readout performs: two 12-bit samples into three bytes. */
  function Pack12(v: seq<int>): (b: seq<int>)
    requires |v| % 2 == 0
    requires Are12Bit(v)
    ensures |b| == |v| / 2 * 3
    ensures AreBytes(b)
    decreases |v|
  {
    if v == [] then []
    else [v[0] / 16, (v[0] % 16) * 16 + v[1] / 256, v[1] % 256] + Pack12(v[2..])
  }

  lemma PackTriple(x: int, y: int)
    requires 0 <= x < 4096 && 0 <= y < 4096
    ensures (x / 16) * 16 + ((x % 16) * 16 + y / 256) / 16 == x
    ensures (((x % 16) * 16 + y / 256) % 16) * 256 + y % 256 == y
  {
  }

  lemma UnpackTriple(b0: int, b1: int, b2: int)
    requires 0 <= b0 < 256 && 0 <= b1 < 256 && 0 <= b2 < 256
    ensures (b0 * 16 + b1 / 16) / 16 == b0
    ensures ((b0 * 16 + b1 / 16) % 16) * 16 + ((b1 % 16) * 256 + b2) / 256 == b1
    ensures ((b1 % 16) * 256 + b2) % 256 == b2
  {
  }

  /** Unpacking recovers any sequence of 12-bit samples that was packed. */
  lemma {:induction false} UnpackPack(v: seq<int>)
    requires |v| % 2 == 0 && Are12Bit(v)
    ensures ReadUint12(Pack12(v)) == v
  {
    if v != [] {
      var x, y, rest := v[0], v[1], v[2..];
      assert v == [x, y] + rest;
      PackCons(x, y, rest);
      UnpackPack(rest);
      PackTriple(x, y);
      ReadCons(x / 16, (x % 16) * 16 + y / 256, y % 256, Pack12(rest));
    }
  }

  /** Packing recovers any byte sequence of whole triples that was unpacked. */
  lemma {:induction false} PackUnpack(b: seq<int>)
    requires |b| % 3 == 0 && AreBytes(b)
    ensures Pack12(ReadUint12(b)) == b
  {
    if b != [] {
      var b0, b1, b2, rest := b[0], b[1], b[2], b[3..];
      assert b == [b0, b1, b2] + rest;
      ReadCons(b0, b1, b2, rest);
      PackUnpack(rest);
      UnpackTriple(b0, b1, b2);
      PackCons(b0 * 16 + b1 / 16, (b1 % 16) * 256 + b2, ReadUint12(rest));
    }
  }

  /** One step of `ReadUint12`: a triple in front unpacks to two samples in front. */
  lemma ReadCons(b0: int, b1: int, b2: int, rest: seq<int>)
    requires 0 <= b0 < 256 && 0 <= b1 < 256 && 0 <= b2 < 256
    requires |rest| % 3 == 0 && AreBytes(rest)
    ensures |[b0, b1, b2] + rest| % 3 == 0 && AreBytes([b0, b1, b2] + rest)
    ensures ReadUint12([b0, b1, b2] + rest) == [b0 * 16 + b1 / 16, (b1 % 16) * 256 + b2] + ReadUint12(rest)
  {
    assert ([b0, b1, b2] + rest)[3..] == rest;
  }

  /** One step of `Pack12`: two samples in front pack to a triple in front. */
  lemma PackCons(x: int, y: int, rest: seq<int>)
    requires 0 <= x < 4096 && 0 <= y < 4096
    requires |rest| % 2 == 0 && Are12Bit(rest)
    ensures |[x, y] + rest| % 2 == 0 && Are12Bit([x, y] + rest)
    ensures Pack12([x, y] + rest) == [x / 16, (x % 16) * 16 + y / 256, y % 256] + Pack12(rest)
  {
    assert ([x, y] + rest)[2..] == rest;
  }

  /** The samples of word `j`: the word's bytes reversed, then unpacked. */
  function WordSamples(payload: seq<int>, header: nat, wordLen: nat, j: nat): (s: seq<int>)
    requires wordLen % 3 == 0 && AreBytes(payload)
    requires header + (j + 1) * wordLen <= |payload|
    ensures |s| == wordLen / 3 * 2 && Are12Bit(s)
  {
    assert header + j * wordLen + wordLen == header + (j + 1) * wordLen;
    var word := payload[header + j * wordLen .. header + (j + 1) * wordLen];
    ReadUint12(Reverse(word))
  }

  /** Sample `j` of lane `l` is sample `l` of word `j` (the transpose the descramblers take). */
  function LaneSamples(payload: seq<int>, header: nat, wordLen: nat, words: nat): (lanes: Matrix<int>)
    requires wordLen % 3 == 0 && AreBytes(payload)
    requires header + words * wordLen <= |payload|
    ensures IsMatrix(lanes, wordLen / 3 * 2, words)
    ensures forall l, j :: 0 <= l < |lanes| && 0 <= j < words ==> 0 <= lanes[l][j] < 4096
  {
    seq(wordLen / 3 * 2, l requires 0 <= l < wordLen / 3 * 2 =>
      seq(words, j requires 0 <= j < words => (RowStart(j, words, wordLen); WordSamples(payload, header, wordLen, j)[l])))
  }

  /**
   * The column-by-column fill of `rawData_12bit`: word after word, each
   * unpacked word is appended to every lane.
   */
  method UnpackLanes(payload: seq<int>, header: nat, wordLen: nat, words: nat) returns (lanes: Matrix<int>)
    requires wordLen % 3 == 0 && AreBytes(payload)
    requires header + words * wordLen <= |payload|
    ensures lanes == LaneSamples(payload, header, wordLen, words)
    ensures forall l, j :: 0 <= l < |lanes| && 0 <= j < words ==> 0 <= lanes[l][j] < 4096
  {
    var n := wordLen / 3 * 2;
    lanes := seq(n, _ => []);
    var j := 0;
    while j < words
      invariant 0 <= j <= words
      invariant |lanes| == n
      invariant forall l :: 0 <= l < n ==> |lanes[l]| == j
      invariant forall l, k :: 0 <= l < n && 0 <= k < j ==> lanes[l][k] == LaneSamples(payload, header, wordLen, words)[l][k]
    {
      RowStart(j, words, wordLen);
      var column := WordSamples(payload, header, wordLen, j);
      lanes := seq(n, l requires 0 <= l < n && |lanes| == n => lanes[l] + [column[l]]);
      j := j + 1;
    }
    var spec := LaneSamples(payload, header, wordLen, words);
    assert forall l :: 0 <= l < n ==> lanes[l] == spec[l];
  }
}
