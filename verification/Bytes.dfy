/** Byte-addressed guest memory and little-endian 64-bit words in it. */
module Bytes {
  import opened Pte

  type byte = x: int | 0 <= x < 256

  function Pow256(n: nat): (p: nat)
    ensures p > 0
  {
    if n == 0 then 1 else 256 * Pow256(n - 1)
  }

  function Encode(x: nat, n: nat): (b: seq<byte>)
    ensures |b| == n
  {
    if n == 0 then [] else [x % 256] + Encode(x / 256, n - 1)
  }

  function DecodeBytes(b: seq<byte>): nat {
    if b == [] then 0 else b[0] + 256 * DecodeBytes(b[1..])
  }

  lemma {:induction false} DecodeBound(b: seq<byte>)
    ensures DecodeBytes(b) < Pow256(|b|)
  {
    if b != [] {
      DecodeBound(b[1..]);
    }
  }

  lemma {:induction false} DecodeEncode(x: nat, n: nat)
    requires x < Pow256(n)
    ensures DecodeBytes(Encode(x, n)) == x
  {
    if n > 0 {
      assert Encode(x, n)[1..] == Encode(x / 256, n - 1);
      DecodeEncode(x / 256, n - 1);
    }
  }

  lemma MulMono(a: nat, b: nat, w: nat)
    requires a <= b
    ensures a * w <= b * w
  {}

  /** Quotient and remainder are the only ones. */
  lemma Quotient(q: nat, d: nat, x: nat)
    requires d > 0 && q * d <= x < (q + 1) * d
    ensures x / d == q && x % d == x - q * d
  {
    var p := x / d;
    assert p * d <= x < (p + 1) * d;
    if p < q {
      MulMono(p + 1, q, d);
    } else if p > q {
      MulMono(q + 1, p, d);
    }
  }

  lemma DivDiv(x: nat, p: nat)
    requires p > 0
    ensures x / (256 * p) == x / 256 / p
  {
    var q := x / 256 / p;
    Quotient(q, 256 * p, x) by {
      assert q * p <= x / 256 < (q + 1) * p;
      assert q * (256 * p) == q * p * 256 && (q + 1) * (256 * p) == (q + 1) * p * 256;
    }
  }

  /** Byte k is digit k to base 256: little-endian. */
  lemma {:induction false} EncodeAt(x: nat, n: nat, k: nat)
    requires k < n
    ensures Encode(x, n)[k] == x / Pow256(k) % 256
  {
    if k > 0 {
      EncodeAt(x / 256, n - 1, k - 1);
      DivDiv(x, Pow256(k - 1));
    }
  }

  lemma Pow8()
    ensures Pow256(8) == TWO_64
  {
    assert Pow256(2) == 0x1_0000 && Pow256(4) == 0x1_0000_0000;
  }

  /** The aligned or unaligned 8-byte word at `a`; 0 beyond the end of memory. */
  function Load64(m: seq<byte>, a: nat): U64 {
    if a + 8 <= |m| then
      DecodeBound(m[a..a + 8]);
      Pow8();
      DecodeBytes(m[a..a + 8])
    else 0
  }

  function Store64(m: seq<byte>, a: nat, v: U64): (n: seq<byte>)
    requires a + 8 <= |m|
    ensures |n| == |m|
  {
    m[..a] + Encode(v, 8) + m[a + 8..]
  }

  lemma LoadStore(m: seq<byte>, a: nat, v: U64, b: nat)
    requires a + 8 <= |m|
    ensures b == a ==> Load64(Store64(m, a, v), b) == v
    ensures b + 8 <= a || a + 8 <= b ==> Load64(Store64(m, a, v), b) == Load64(m, b)
  {
    var n := Store64(m, a, v);
    if b == a {
      assert n[a..a + 8] == Encode(v, 8);
      Pow8();
      DecodeEncode(v, 8);
    } else if b + 8 <= |m| && (b + 8 <= a || a + 8 <= b) {
      assert n[b..b + 8] == m[b..b + 8];
    }
  }
}
