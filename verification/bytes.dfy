/**
 * Byte buffers read as little-endian unsigned integers: the first byte is the
 * least significant digit in base 256. This is how the scratch counter of the
 * key search interprets its `Vec<u8>`.
 */
module LittleEndian {

  /** A Rust `u8`. */
  type Byte = x: int | 0 <= x < 256

  /** 256^n, the number of distinct n-byte buffers. */
  function Pow256(n: nat): (p: nat)
    ensures p >= 1
  {
    if n == 0 then 1 else 256 * Pow256(n - 1)
  }

  /** 2^e. */
  function Pow2(e: nat): (p: nat)
    ensures p >= 1
  {
    if e == 0 then 1 else 2 * Pow2(e - 1)
  }

  /** The number a buffer denotes, first byte least significant. */
  function Value(s: seq<Byte>): (v: nat)
    ensures v < Pow256(|s|)
  {
    if s == [] then 0 else s[0] + 256 * Value(s[1..])
  }

  /** The n-byte little-endian encoding of v (v is taken modulo 256^n). */
  function Encode(v: nat, n: nat): (s: seq<Byte>)
    ensures |s| == n
  {
    if n == 0 then [] else [v % 256] + Encode(v / 256, n - 1)
  }

  /** `zeros(size)`: a buffer of `size` zero bytes. */
  function Zeros(size: nat): (z: seq<Byte>)
    ensures |z| == size
    ensures forall i :: 0 <= i < size ==> z[i] == 0
  {
    seq(size, _ => 0)
  }

  /** Reading an encoding back gives the number that was encoded. */
  lemma {:induction false} ValueOfEncode(v: nat, n: nat)
    requires v < Pow256(n)
    ensures Value(Encode(v, n)) == v
  {
    if n > 0 {
      ValueOfEncode(v / 256, n - 1);
      assert Encode(v, n)[1..] == Encode(v / 256, n - 1);
    }
  }

  /** Base-256 digits: a digit d below 256 plus 256 q leaves remainder d and quotient q. */
  lemma DigitDivMod(d: nat, q: nat)
    requires d < 256
    ensures (d + 256 * q) % 256 == d && (d + 256 * q) / 256 == q
  {
  }

  /** Encoding the value of a buffer gives the buffer back. */
  lemma {:induction false} EncodeOfValue(s: seq<Byte>)
    ensures Encode(Value(s), |s|) == s
  {
    if s != [] {
      EncodeOfValue(s[1..]);
      DigitDivMod(s[0], Value(s[1..]));
      assert Encode(Value(s), |s|) == [s[0]] + Encode(Value(s[1..]), |s| - 1);
    }
  }

  /** Distinct numbers below 256^n have distinct n-byte encodings. */
  lemma EncodeInjective(v: nat, w: nat, n: nat)
    requires v < Pow256(n) && w < Pow256(n)
    requires Encode(v, n) == Encode(w, n)
    ensures v == w
  {
    ValueOfEncode(v, n);
    ValueOfEncode(w, n);
  }

  /** The all-zero buffer is the encoding of 0. */
  lemma {:induction false} ZerosIsEncodeZero(size: nat)
    ensures Encode(0, size) == Zeros(size)
    ensures Value(Zeros(size)) == 0
  {
    if size > 0 {
      ZerosIsEncodeZero(size - 1);
      assert Zeros(size) == [0] + Zeros(size - 1);
    }
    ValueOfEncode(0, size);
  }

  /** A buffer whose bytes are all 255 denotes 256^n - 1, the largest n-byte value. */
  lemma {:induction false} AllMaxIsLargest(s: seq<Byte>)
    requires forall i :: 0 <= i < |s| ==> s[i] == 255
    ensures Value(s) == Pow256(|s|) - 1
  {
    if s != [] {
      AllMaxIsLargest(s[1..]);
    }
  }

  /** 256^n == 2^(8n): the size of the space counted in bytes or in bits agrees. */
  lemma {:induction false} Pow256IsPow2(n: nat)
    ensures Pow256(n) == Pow2(8 * n)
  {
    if n > 0 {
      Pow256IsPow2(n - 1);
      var e := 8 * (n - 1);
      assert 8 * n == e + 8;
      assert Pow2(e + 8) == 256 * Pow2(e) by {
        assert Pow2(e + 8) == 2 * Pow2(e + 7);
        assert Pow2(e + 7) == 2 * Pow2(e + 6);
        assert Pow2(e + 6) == 2 * Pow2(e + 5);
        assert Pow2(e + 5) == 2 * Pow2(e + 4);
        assert Pow2(e + 4) == 2 * Pow2(e + 3);
        assert Pow2(e + 3) == 2 * Pow2(e + 2);
        assert Pow2(e + 2) == 2 * Pow2(e + 1);
        assert Pow2(e + 1) == 2 * Pow2(e);
      }
    }
  }

  /** 2^d <= 2^e when d <= e. */
  lemma {:induction false} Pow2Monotone(d: nat, e: nat)
    requires d <= e
    ensures Pow2(d) <= Pow2(e)
  {
    if d < e {
      Pow2Monotone(d, e - 1);
    }
  }
}
