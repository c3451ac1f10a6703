/**
 * Fixed-width integers as BAM stores them: little-endian bytes, two's
 * complement for the signed types. The record core and every integer field
 * are copied out of host memory; the model fixes the byte order to
 * little-endian.
 */
module BamBytes {

  type byte = x: int | 0 <= x < 256

  /**
   * Which codec a composite member describes: the program as written, or the
   * program with the evidently intended width, name-length, hex-pair and
   * CG-restore steps in their place.
   */
  datatype Variant = AsWritten | Intended

  /** `256^n`: the number of values of an `n`-byte unsigned integer. */
  function Pow256(n: nat): (p: nat)
    ensures p >= 1
  {
    if n == 0 then 1 else 256 * Pow256(n - 1)
  }

  /** The `n` little-endian bytes of `v mod 256^n`. */
  function EncodeLE(v: nat, n: nat): (bs: seq<byte>)
    ensures |bs| == n
  {
    if n == 0 then [] else [v % 256] + EncodeLE(v / 256, n - 1)
  }

  /** The unsigned value of little-endian bytes. */
  function DecodeLE(bs: seq<byte>): (v: nat)
    ensures v < Pow256(|bs|)
  {
    if |bs| == 0 then 0 else bs[0] + 256 * DecodeLE(bs[1..])
  }

  /** Decoding undoes encoding for every value that fits in `n` bytes. */
  lemma {:induction false} DecodeEncode(v: nat, n: nat)
    requires v < Pow256(n)
    ensures DecodeLE(EncodeLE(v, n)) == v
  {
    if n > 0 {
      var bs := EncodeLE(v, n);
      assert bs[1..] == EncodeLE(v / 256, n - 1);
      DecodeEncode(v / 256, n - 1);
    }
  }

  /** Encoding undoes decoding: bytes are determined by their value. */
  lemma {:induction false} EncodeDecode(bs: seq<byte>)
    ensures EncodeLE(DecodeLE(bs), |bs|) == bs
  {
    if |bs| > 0 {
      var v := DecodeLE(bs);
      assert v % 256 == bs[0] && v / 256 == DecodeLE(bs[1..]);
      EncodeDecode(bs[1..]);
    }
  }

  /** Reducing a value that lies within one modulus of the range `[0, p)`. */
  lemma ModInRange(v: int, p: int)
    requires p > 0 && -p <= v < p
    ensures v % p == (if v >= 0 then v else v + p)
  {
    var q, r := v / p, v % p;
    assert v == p * q + r;
    if q >= 1 {
      assert false;
    } else if q <= -2 {
      assert false;
    }
  }

  /** The two's complement reading of an `n`-byte unsigned value. */
  function ToSigned(u: nat, n: nat): (v: int)
    requires n > 0 && u < Pow256(n)
    ensures 2 * v + Pow256(n) >= 0 && 2 * v < Pow256(n)
    ensures u == (if v >= 0 then v else v + Pow256(n))
  {
    var p := Pow256(n);
    if 2 * u < p then u else u - p
  }

  /** The `n`-byte two's complement bytes of `v`, truncated modulo `256^n` like a narrowing cast. */
  function EncodeSigned(v: int, n: nat): (bs: seq<byte>)
    ensures |bs| == n
  {
    EncodeLE(v % Pow256(n), n)
  }

  /** A signed value that fits reads back unchanged. */
  lemma SignedRoundTrip(v: int, n: nat)
    requires n > 0 && 2 * v + Pow256(n) >= 0 && 2 * v < Pow256(n)
    ensures ToSigned(DecodeLE(EncodeSigned(v, n)), n) == v
  {
    ModInRange(v, Pow256(n));
    DecodeEncode(v % Pow256(n), n);
  }
}
