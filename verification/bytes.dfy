/** Bytes, C strings and the unsigned 64-bit arithmetic the binout reader relies on. */
module Bytes {

  type byte = x: int | 0 <= x < 256

  const U64_MODULUS: nat := 0x1_0000_0000_0000_0000
  /** 2^63: offsets at or above this are negative once read as a signed `long`. */
  const SIGNED_LIMIT: nat := 0x8000_0000_0000_0000
  /** `(size_t)~0` / `math.MaxUint64`, the sentinel the library returns for "no such path". */
  const SIZE_MAX: nat := U64_MODULUS - 1

  function Pow256(k: nat): (r: nat)
    ensures r >= 1
  {
    if k == 0 then 1 else 256 * Pow256(k - 1)
  }

  /** A field of at most 8 bytes fits a `uint64_t`. */
  lemma {:induction false} FieldFitsU64(k: nat)
    ensures k <= 8 ==> Pow256(k) <= U64_MODULUS
    decreases 8 - k
  {
    if k < 8 {
      FieldFitsU64(k + 1);
    } else if k == 8 {
      assert Pow256(8) == U64_MODULUS;
    }
  }

  /** Value of `bs` read as a little-endian unsigned integer. */
  function LittleEndian(bs: seq<byte>): (r: nat)
    ensures |bs| == 0 ==> r == 0
    ensures |bs| == 1 ==> r == bs[0]
  {
    if |bs| == 0 then 0 else bs[0] + 256 * LittleEndian(bs[1..])
  }

  /** The first byte of a field is its least significant one. */
  lemma {:induction false} LittleEndianLowByte(bs: seq<byte>)
    requires 0 < |bs|
    ensures LittleEndian(bs) % 256 == bs[0]
    ensures LittleEndian(bs) / 256 == LittleEndian(bs[1..])
  {
  }

  /** The `k` low-order bytes of `v`, least significant first. */
  function ToLittleEndian(v: nat, k: nat): (bs: seq<byte>)
    ensures |bs| == k
  {
    if k == 0 then [] else [v % 256] + ToLittleEndian(v / 256, k - 1)
  }

  lemma {:induction false} LittleEndianBound(bs: seq<byte>)
    ensures LittleEndian(bs) < Pow256(|bs|)
  {
    if |bs| > 0 {
      LittleEndianBound(bs[1..]);
    }
  }

  /** Encoding a value that fits in `k` bytes and decoding it gives it back. */
  lemma {:induction false} DecodeEncode(v: nat, k: nat)
    requires v < Pow256(k)
    ensures LittleEndian(ToLittleEndian(v, k)) == v
  {
    if k > 0 {
      DecodeEncode(v / 256, k - 1);
      assert ToLittleEndian(v, k)[1..] == ToLittleEndian(v / 256, k - 1);
    }
  }

  /** Decoding `bs` and re-encoding it in `|bs|` bytes gives `bs` back. */
  lemma {:induction false} EncodeDecode(bs: seq<byte>)
    ensures ToLittleEndian(LittleEndian(bs), |bs|) == bs
  {
    if |bs| > 0 {
      EncodeDecode(bs[1..]);
      var v := LittleEndian(bs);
      assert v % 256 == bs[0];
      assert v / 256 == LittleEndian(bs[1..]);
      assert bs == [bs[0]] + bs[1..];
    }
  }

  /** Unsigned 64-bit subtraction `a - b`, wrapping around as C's `uint64_t` does. */
  function SubU64(a: nat, b: nat): (r: nat)
    requires a < U64_MODULUS && b < U64_MODULUS
    ensures r < U64_MODULUS
    ensures a >= b ==> r == a - b
    ensures a < b ==> r == U64_MODULUS - (b - a)
  {
    if a >= b then a - b else U64_MODULUS - (b - a)
  }

  /** The wrapped difference is the true difference modulo 2^64. */
  lemma SubU64Congruent(a: nat, b: nat)
    requires a < U64_MODULUS && b < U64_MODULUS
    ensures (SubU64(a, b) - (a - b)) % U64_MODULUS == 0
  {
    if a < b {
      assert SubU64(a, b) - (a - b) == U64_MODULUS;
    }
  }

  /** A `uint64_t` converted to the signed `long` that `fseek` takes (two's complement). */
  function ToSigned64(x: nat): (r: int)
    requires x < U64_MODULUS
    ensures -(SIGNED_LIMIT as int) <= r < SIGNED_LIMIT
    ensures x < SIGNED_LIMIT ==> r == x
    ensures x >= SIGNED_LIMIT ==> r == x - U64_MODULUS
  {
    if x < SIGNED_LIMIT then x else x - U64_MODULUS
  }

  /** The characters of a byte buffer as far as its first NUL, as `strlen`/`C.GoString` see it. */
  function CString(bs: seq<byte>): (s: string)
    ensures |s| <= |bs|
    ensures '\0' !in s
    ensures forall i :: 0 <= i < |s| ==> s[i] == bs[i] as char
    ensures |s| < |bs| ==> bs[|s|] == 0
  {
    if |bs| == 0 || bs[0] == 0 then [] else [bs[0] as char] + CString(bs[1..])
  }
}
