/**
  Fixed-width unsigned integers and their big-endian byte encodings, as Rust's
  `to_be_bytes` / `from_be_bytes` produce and consume them.
 */
module Bytes {

  type byte = x: int | 0 <= x < 0x100
  type u16 = x: int | 0 <= x < 0x1_0000
  type u64 = x: int | 0 <= x < 0x1_0000_0000_0000_0000

  const U16Modulus: nat := 0x1_0000
  const U64Modulus: nat := 0x1_0000_0000_0000_0000

  /** 256 to the power n: the number of values that n bytes can hold. */
  function Pow256(n: nat): (r: nat)
    ensures r >= 1
  {
    if n == 0 then 1 else 256 * Pow256(n - 1)
  }

  lemma Pow256Widths()
    ensures Pow256(2) == U16Modulus
    ensures Pow256(8) == U64Modulus
  {
  }

  /** The `width` low-order bytes of `v`, most significant first. */
  function BeBytes(v: nat, width: nat): (r: seq<byte>)
    ensures |r| == width
  {
    if width == 0 then [] else BeBytes(v / 256, width - 1) + [v % 256]
  }

  /** The unsigned number whose big-endian encoding is `s`. */
  function BeValue(s: seq<byte>): (r: nat)
    ensures r < Pow256(|s|)
  {
    if s == [] then 0
    else
      var high := BeValue(s[..|s| - 1]);
      assert high * 256 <= (Pow256(|s| - 1) - 1) * 256;
      high * 256 + s[|s| - 1]
  }

  lemma MulMonotone(d: nat, a: int, b: int)
    requires a <= b
    ensures d * a <= d * b
  {
    assert d * b - d * a == d * (b - a);
  }

  /** Euclidean division has a unique quotient and remainder. */
  lemma ModUnique(v: nat, d: nat, k: nat, m: nat)
    requires 0 < d && m < d && v == d * k + m
    ensures v % d == m && v / d == k
  {
    var q, r := v / d, v % d;
    assert v == d * q + r;
    if q > k {
      MulMonotone(d, k + 1, q);
      assert false;
    } else if q < k {
      MulMonotone(d, q + 1, k);
      assert false;
    }
  }

  /** Splitting off the lowest byte commutes with reduction modulo 256 * p. */
  lemma ModSplit(v: nat, p: nat)
    requires p >= 1
    ensures ((v / 256) % p) * 256 + v % 256 == v % (256 * p)
  {
    var q, r := v / 256, v % 256;
    var k, m := q / p, q % p;
    assert q == p * k + m;
    assert v == 256 * q + r;
    assert v == (256 * p) * k + (m * 256 + r) by {
      assert 256 * q == 256 * (p * k) + 256 * m;
      assert 256 * (p * k) == (256 * p) * k;
    }
    assert m * 256 + r < 256 * p by {
      assert m * 256 <= (p - 1) * 256;
    }
    ModUnique(v, 256 * p, k, m * 256 + r);
  }

  /** Decoding an encoding gives back the value reduced to the width. */
  lemma {:induction false} BeValueOfBeBytes(v: nat, width: nat)
    ensures BeValue(BeBytes(v, width)) == v % Pow256(width)
  {
    if width > 0 {
      var s := BeBytes(v, width);
      var high := BeBytes(v / 256, width - 1);
      assert s[..|s| - 1] == high;
      BeValueOfBeBytes(v / 256, width - 1);
      ModSplit(v, Pow256(width - 1));
    }
  }

  /** A value that fits the width survives the round trip unchanged. */
  lemma BeRoundTrip(v: nat, width: nat)
    requires v < Pow256(width)
    ensures BeValue(BeBytes(v, width)) == v
  {
    BeValueOfBeBytes(v, width);
  }

  /** Encoding a decoded byte string gives back the byte string. */
  lemma {:induction false} BeBytesOfBeValue(s: seq<byte>)
    ensures BeBytes(BeValue(s), |s|) == s
  {
    if s != [] {
      var init, last := s[..|s| - 1], s[|s| - 1];
      ModUnique(BeValue(s), 256, BeValue(init), last);
      BeBytesOfBeValue(init);
      assert s == init + [last];
    }
  }
}
