/**
 * Integer operations the descramblers and decoders apply to samples: bitwise
 * AND with a mask, the gain-bit fold, little-endian byte decoding, the int32
 * storage of the environmental monitor and Python's truncating conversions.
 */
module Bits {
  import opened Common

  function Pow2(k: nat): (p: nat)
    ensures p >= 1
  {
    if k == 0 then 1 else 2 * Pow2(k - 1)
  }

  /** Bitwise AND of two non-negative integers (`np.bitwise_and`, `&`). */
  function And(a: nat, b: nat): nat
  {
    if a == 0 || b == 0 then 0
    else 2 * And(a / 2, b / 2) + (if a % 2 == 1 && b % 2 == 1 then 1 else 0)
  }

  /** AND never sets a bit that is clear in either operand, so the result is at most either one. */
  lemma {:induction false} AndBounded(a: nat, b: nat)
    ensures And(a, b) <= a && And(a, b) <= b
  {
    if a != 0 && b != 0 {
      AndBounded(a / 2, b / 2);
    }
  }

  /** Splitting off the lowest bit commutes with taking a remainder by an even modulus. */
  lemma ModOfDouble(a: nat, p: nat)
    requires p >= 1
    ensures a % (2 * p) == 2 * ((a / 2) % p) + a % 2
  {
    var h, b := a / 2, a % 2;
    var q, r := h / p, h % p;
    assert h == p * q + r;
    assert a == 2 * h + b;
    assert a == (2 * p) * q + (2 * r + b);
    DivModUnique(a, 2 * p, q, 2 * r + b);
  }

  /** AND with 2^k - 1 keeps exactly the k low bits. */
  lemma {:induction false} AndLowMask(a: nat, k: nat)
    ensures And(a, Pow2(k) - 1) == a % Pow2(k)
  {
    if k == 0 {
      DivModUnique(a, 1, a, 0);
    } else if a == 0 {
      DivModUnique(0, Pow2(k), 0, 0);
    } else {
      var p := Pow2(k - 1);
      assert Pow2(k) == 2 * p;
      LowMaskHalves(k);
      AndOddStep(a, Pow2(k) - 1);
      AndLowMask(a / 2, k - 1);
      ModOfDouble(a, p);
    }
  }

  /** 2^k - 1 for k > 0 is odd, and halving it gives 2^(k-1) - 1. */
  lemma LowMaskHalves(k: nat)
    requires k > 0
    ensures Pow2(k) - 1 >= 1 && (Pow2(k) - 1) % 2 == 1 && (Pow2(k) - 1) / 2 == Pow2(k - 1) - 1
  {
    DivModUnique(Pow2(k) - 1, 2, Pow2(k - 1) - 1, 1);
  }

  /** ANDing with an odd mask keeps the lowest bit of `a` and ANDs the rest. */
  lemma AndOddStep(a: nat, m: nat)
    requires a != 0 && m % 2 == 1
    ensures And(a, m) == 2 * And(a / 2, m / 2) + a % 2
  {
  }

  /** The default PixelBitMask 0x7fff leaves every 12-bit sample unchanged. */
  lemma DefaultMaskKeeps12Bit(v: nat)
    requires v < 4096
    ensures And(v, 0x7fff) == v
  {
    assert Pow2(4) == 16 by {
      assert Pow2(1) == 2 && Pow2(2) == 4 && Pow2(3) == 8;
    }
    assert Pow2(8) == 256 by {
      assert Pow2(5) == 32 && Pow2(6) == 64 && Pow2(7) == 128;
    }
    assert Pow2(12) == 4096 by {
      assert Pow2(9) == 512 && Pow2(10) == 1024 && Pow2(11) == 2048;
    }
    var p := Pow2(15);
    assert p == 0x8000 by {
      assert Pow2(13) == 8192 && Pow2(14) == 16384;
    }
    AndLowMask(v, 15);
    assert v % p == v;
  }

  /**
   * The gain-bit fold applied when GainMSB is set: the least-significant bit
   * becomes the most-significant bit of a 12-bit value.
   */
  function GainFold(v: nat): nat
  {
    if v % 2 == 0 then v / 2 else (v - 1) / 2 + 2048
  }

  /** The inverse of the fold: the gain bit moved back to the bottom. */
  function GainUnfold(u: nat): nat
  {
    if u < 2048 then 2 * u else 2 * (u - 2048) + 1
  }

  /** The fold is a bijection on 0..4095 that sends odd samples to the upper half. */
  lemma GainFoldBijective(v: nat, u: nat)
    requires v < 4096 && u < 4096
    ensures GainFold(v) < 4096 && GainUnfold(GainFold(v)) == v
    ensures GainUnfold(u) < 4096 && GainFold(GainUnfold(u)) == u
    ensures (GainFold(v) >= 2048) <==> (v % 2 == 1)
  {
  }

  /** `int.from_bytes(b, byteorder='little')` for unsigned bytes. */
  function LittleEndian(b: seq<nat>): nat
  {
    if b == [] then 0 else b[0] + 256 * LittleEndian(b[1..])
  }

  function Pow256(n: nat): (p: nat)
    ensures p >= 1
  {
    if n == 0 then 1 else 256 * Pow256(n - 1)
  }

  /** n bytes decode to a value below 256^n. */
  lemma {:induction false} LittleEndianBound(b: seq<nat>)
    requires forall i :: 0 <= i < |b| ==> b[i] < 256
    ensures LittleEndian(b) < Pow256(|b|)
  {
    if b != [] {
      LittleEndianBound(b[1..]);
      assert LittleEndian(b[1..]) + 1 <= Pow256(|b| - 1);
      assert 256 * (LittleEndian(b[1..]) + 1) <= 256 * Pow256(|b| - 1);
    }
  }

  /** The value a 32-bit two's-complement cell holds after storing `u` (numpy's wrap-around). */
  function Int32(u: nat): (v: int)
    requires u < 0x1_0000_0000
    ensures -0x8000_0000 <= v < 0x8000_0000
    ensures (v - u) % 0x1_0000_0000 == 0
  {
    if u < 0x8000_0000 then u else u - 0x1_0000_0000
  }

  /** The value a 16-bit two's-complement cell holds for the bit pattern `u` (numpy `int16`). */
  function Int16(u: nat): (v: int)
    requires u < 0x1_0000
    ensures -0x8000 <= v < 0x8000
    ensures (v - u) % 0x1_0000 == 0
  {
    if u < 0x8000 then u else u - 0x1_0000
  }

  lemma {:induction false} Pow2Add(a: nat, b: nat)
    ensures Pow2(a + b) == Pow2(a) * Pow2(b)
  {
    if a > 0 {
      Pow2Add(a - 1, b);
      assert Pow2(a + b) == 2 * Pow2(a - 1 + b);
    }
  }

  /** The bit widths of numpy's integer cells. */
  type Width = w: nat | 0 < w <= 64 witness 8

  /** `-sys.maxsize - 1` on a 64-bit build: the crosshair's value. */
  const Min64: int := -0x8000_0000_0000_0000

  /**
   * The value a `w`-bit integer cell holds once `Min64` is stored into it,
   * as numpy before 2.0 stores an integer that does not fit: the one value
   * of the cell's range that is congruent to it modulo 2^w.
   */
  function StoredMin64(w: Width, signed: bool): (m: int)
    ensures (m - Min64) % Pow2(w) == 0
    ensures signed ==> -(Pow2(w - 1) as int) <= m < Pow2(w - 1)
    ensures !signed ==> 0 <= m < Pow2(w)
  {
    Pow2Of63();
    if w < 64 then
      Pow2Divides(w, 63);
      0
    else
      var h := Pow2(w - 1);
      assert h == -Min64;
      assert Pow2(w) == 2 * h;
      DivModUnique(0, Pow2(w), 0, 0);
      DivModUnique(2 * h, Pow2(w), 1, 0);
      if signed then Min64 else h
  }

  /** 2^63, the magnitude of `Min64`. */
  lemma Pow2Of63()
    ensures Pow2(63) == -Min64
  {
    assert Pow2(7) == 128 by {
      assert Pow2(1) == 2 && Pow2(2) == 4 && Pow2(3) == 8 && Pow2(4) == 16;
      assert Pow2(5) == 32 && Pow2(6) == 64;
    }
    assert Pow2(8) == 256;
    Pow2Add(8, 8);
    assert Pow2(16) == 0x1_0000;
    Pow2Add(16, 16);
    assert Pow2(32) == 0x1_0000_0000;
    Pow2Add(32, 16);
    assert Pow2(48) == 0x1_0000_0000_0000;
    Pow2Add(48, 8);
    assert Pow2(56) == 0x100_0000_0000_0000;
    Pow2Add(56, 7);
  }

  /** A smaller power of two divides a larger one. */
  lemma Pow2Divides(k: nat, n: nat)
    requires k <= n
    ensures Pow2(n) % Pow2(k) == 0
  {
    var q := Pow2(n - k);
    Pow2Add(k, n - k);
    assert Pow2(n) == Pow2(k) * q;
    DivModUnique(Pow2(n), Pow2(k), q, 0);
  }

  /** Integer division truncated toward zero (a float division stored into an integer cell). */
  function TruncDiv(a: int, d: nat): (q: int)
    requires d > 0
    ensures a >= 0 ==> 0 <= d * q <= a < d * q + d
    ensures a < 0 ==> a <= d * q <= 0 && d * q - d < a
  {
    if a >= 0 then
      DivBounds(a, d);
      a / d
    else
      DivBounds(-a, d);
      -((-a) / d)
  }
}
