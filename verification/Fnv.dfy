/** 64-bit FNV-1a as defined in section 2 of draft-eastlake-fnv, and why it catches every
    single-byte change: each step is injective in the running value and in the byte. */
module Fnv {
  import opened Bytes

  const OFFSET_BASIS: nat := 14695981039346656037
  const PRIME: nat := 1099511628211
  /** The inverse of PRIME modulo 2^64. */
  const PRIME_INVERSE: nat := 0xce965057aff6957b

  function Pow2(n: nat): (p: nat)
    ensures p >= 1
  {
    if n == 0 then 1 else 2 * Pow2(n - 1)
  }

  /** Bitwise exclusive or of the low `bits` bits. */
  function Xor(a: nat, b: nat, bits: nat): nat {
    if bits == 0 then 0 else (a + b) % 2 + 2 * Xor(a / 2, b / 2, bits - 1)
  }

  lemma {:induction false} XorInvolution(a: nat, b: nat, bits: nat)
    requires a < Pow2(bits)
    ensures Xor(Xor(a, b, bits), b, bits) == a
  {
    if bits > 0 {
      var rest := Xor(a / 2, b / 2, bits - 1);
      var x := Xor(a, b, bits);
      XorInvolution(a / 2, b / 2, bits - 1);
      LowBit((a + b) % 2, rest);
      BitBack(a, b, x);
      assert Xor(x, b, bits) == a % 2 + 2 * (a / 2);
    }
  }

  lemma LowBit(bit: nat, rest: nat)
    requires bit < 2
    ensures (bit + 2 * rest) % 2 == bit && (bit + 2 * rest) / 2 == rest
  {
  }

  lemma BitBack(a: nat, b: nat, x: nat)
    requires x % 2 == (a + b) % 2
    ensures (x + b) % 2 == a % 2
  {
  }

  lemma {:induction false} XorCommutes(a: nat, b: nat, bits: nat)
    ensures Xor(a, b, bits) == Xor(b, a, bits)
  {
    if bits > 0 {
      XorCommutes(a / 2, b / 2, bits - 1);
    }
  }

  lemma {:induction false} XorBound(a: nat, b: nat, bits: nat)
    ensures Xor(a, b, bits) < Pow2(bits)
  {
    if bits > 0 {
      XorBound(a / 2, b / 2, bits - 1);
    }
  }

  lemma {:induction false} Pow2Sum(m: nat, n: nat)
    ensures Pow2(m + n) == Pow2(m) * Pow2(n)
  {
    if m > 0 {
      Pow2Sum(m - 1, n);
      assert Pow2(m + n) == 2 * Pow2(m - 1 + n) == 2 * (Pow2(m - 1) * Pow2(n));
    }
  }

  lemma Pow2At64()
    ensures Pow2(64) == U64
  {
    assert Pow2(4) == 16;
    Pow2Sum(4, 4);
    Pow2Sum(8, 8);
    Pow2Sum(16, 16);
    Pow2Sum(32, 32);
  }

  function Absorb(h: nat, b: byte): (r: nat)
    ensures r < U64
  {
    Xor(h, b, 64) * PRIME % U64
  }

  function Fnv1a64(data: Bytes): (h: nat)
    ensures h < U64
  {
    if data == [] then OFFSET_BASIS else Absorb(Fnv1a64(data[..|data| - 1]), data[|data| - 1])
  }

  lemma MultiplyInjective(x: nat, y: nat)
    requires x < U64 && y < U64
    requires x * PRIME % U64 == y * PRIME % U64
    ensures x == y
  {
    var d := x - y;
    var k := x * PRIME / U64 - y * PRIME / U64;
    assert d * PRIME == k * U64;
    var q := PRIME * PRIME_INVERSE / U64;
    assert PRIME * PRIME_INVERSE == 1 + q * U64;
    assert d * (1 + q * U64) == k * PRIME_INVERSE * U64;
    assert d == (k * PRIME_INVERSE - q * d) * U64;
  }

  lemma AbsorbInjectiveInHash(h: nat, g: nat, b: byte)
    requires h < U64 && g < U64 && Absorb(h, b) == Absorb(g, b)
    ensures h == g
  {
    Pow2At64();
    XorBound(h, b, 64);
    XorBound(g, b, 64);
    MultiplyInjective(Xor(h, b, 64), Xor(g, b, 64));
    XorInvolution(h, b, 64);
    XorInvolution(g, b, 64);
  }

  lemma AbsorbInjectiveInByte(h: nat, b: byte, c: byte)
    requires Absorb(h, b) == Absorb(h, c)
    ensures b == c
  {
    Pow2At64();
    XorBound(h, b, 64);
    XorBound(h, c, 64);
    MultiplyInjective(Xor(h, b, 64), Xor(h, c, 64));
    XorCommutes(h, b, 64);
    XorCommutes(h, c, 64);
    XorInvolution(b, h, 64);
    XorInvolution(c, h, 64);
  }

  /** `t` is `s` with the byte at `k`, and no other, changed. */
  ghost predicate OneByteChanged(s: Bytes, t: Bytes, k: nat) {
    && |s| == |t| && k < |s| && s[k] != t[k]
    && t == s[k := t[k]]
  }

  /** Changing any one byte of any string changes its checksum. */
  lemma {:induction false} SingleByteDetected(s: Bytes, t: Bytes, k: nat)
    requires OneByteChanged(s, t, k)
    ensures Fnv1a64(s) != Fnv1a64(t)
  {
    var n := |s| - 1;
    if k == n {
      assert s[..n] == t[..n];
      if Fnv1a64(s) == Fnv1a64(t) {
        AbsorbInjectiveInByte(Fnv1a64(s[..n]), s[n], t[n]);
      }
    } else {
      assert t[..n] == s[..n][k := t[k]];
      SingleByteDetected(s[..n], t[..n], k);
      if Fnv1a64(s) == Fnv1a64(t) {
        AbsorbInjectiveInHash(Fnv1a64(s[..n]), Fnv1a64(t[..n]), s[n]);
      }
    }
  }

  /** The accumulator loop of the source computes the folded definition. */
  method Checksum(data: Bytes) returns (value: nat)
    ensures value == Fnv1a64(data)
  {
    value := OFFSET_BASIS;
    for i := 0 to |data|
      invariant value == Fnv1a64(data[..i])
    {
      assert data[..i + 1][..i] == data[..i];
      value := Xor(value, data[i], 64);
      value := value * PRIME % U64;
    }
    assert data[..|data|] == data;
  }
}
