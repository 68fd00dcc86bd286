/** Octets and their bits, the one bit-level operation the protocol code needs on them, and sequences of them. */
module Bytes {
  type byte = b: int | 0 <= b < 256

  const OCTET_BITS: nat := 8

  function Pow2(n: nat): (p: int)
    ensures p > 0
  {
    if n == 0 then 1 else 2 * Pow2(n - 1)
  }

  /** Exclusive or of the `n` lowest bits of `a` and `b`. */
  function XorLow(a: nat, b: nat, n: nat): (r: nat)
    ensures r < Pow2(n)
  {
    if n == 0 then 0
    else (if a % 2 == b % 2 then 0 else 1) + 2 * XorLow(a / 2, b / 2, n - 1)
  }

  /** `a ^ b` on octets. */
  function Xor(a: byte, b: byte): (r: byte) {
    assert Pow2(OCTET_BITS) == 256;
    XorLow(a, b, OCTET_BITS)
  }

  lemma Halve(bit: nat, x: nat)
    requires bit < 2
    ensures (bit + 2 * x) / 2 == x && (bit + 2 * x) % 2 == bit
  {}

  lemma {:induction false} XorLowCancels(a: nat, b: nat, n: nat)
    requires a < Pow2(n)
    ensures XorLow(XorLow(a, b, n), b, n) == a
  {
    if n > 0 {
      var x := XorLow(a / 2, b / 2, n - 1);
      Halve(if a % 2 == b % 2 then 0 else 1, x);
      XorLowCancels(a / 2, b / 2, n - 1);
    }
  }

  /** Masking twice with the same octet gives the octet back. */
  lemma XorCancels(a: byte, m: byte)
    ensures Xor(Xor(a, m), m) == a
  {
    assert Pow2(OCTET_BITS) == 256;
    XorLowCancels(a, m, OCTET_BITS);
  }

  // ----- sequences of octets

  /** The octets of several reads. */
  function Concat(pieces: seq<seq<byte>>): (r: seq<byte>) {
    if pieces == [] then [] else pieces[0] + Concat(pieces[1..])
  }

  lemma Assoc<T>(a: seq<T>, b: seq<T>, c: seq<T>)
    ensures a + b + c == a + (b + c)
  {}

  // ----- bits

  /** Bit `k` of `x`, the least significant first. */
  function Bit(x: nat, k: nat): (b: nat)
    ensures b < 2
  {
    x / Pow2(k) % 2
  }

  lemma QuotientIs(x: int, d: int, q: int, r: int)
    requires d > 0 && x == q * d + r && 0 <= r < d
    ensures x / d == q && x % d == r
  {
    var e := x / d - q;
    assert x == x / d * d + x % d;
    assert e * d == r - x % d;
    assert e > 0 ==> e * d >= d;
    assert e < 0 ==> e * d <= 0 - d;
  }

  lemma DivDiv(x: nat, p: nat)
    requires p > 0
    ensures x / (2 * p) == x / 2 / p
  {
    var q, r := x / 2 / p, x / 2 % p;
    assert x / 2 == q * p + r && x == 2 * (x / 2) + x % 2;
    assert x == q * (2 * p) + (2 * r + x % 2);
    QuotientIs(x, 2 * p, q, 2 * r + x % 2);
  }

  lemma BitNext(x: nat, k: nat)
    ensures Bit(x, 0) == x % 2 && Bit(x, k + 1) == Bit(x / 2, k)
  {
    DivDiv(x, Pow2(k));
  }

  lemma {:induction false} XorLowBits(a: nat, b: nat, n: nat, k: nat)
    requires k < n
    ensures Bit(XorLow(a, b, n), k) == 1 <==> Bit(a, k) != Bit(b, k)
  {
    var low, x := if a % 2 == b % 2 then 0 else 1, XorLow(a / 2, b / 2, n - 1);
    Halve(low, x);
    if k == 0 {
      BitNext(low + 2 * x, 0);
      BitNext(a, 0);
      BitNext(b, 0);
    } else {
      BitNext(low + 2 * x, k - 1);
      BitNext(a, k - 1);
      BitNext(b, k - 1);
      XorLowBits(a / 2, b / 2, n - 1, k - 1);
    }
  }

  /** A bit of the result is set just if the two bits differ. */
  lemma XorBits(a: byte, b: byte, k: nat)
    requires k < 8
    ensures Bit(Xor(a, b), k) == 1 <==> Bit(a, k) != Bit(b, k)
  {
    XorLowBits(a, b, OCTET_BITS, k);
  }

  // ----- bit strings

  /** The `n` low bits of `x`, most significant first. */
  function Bits(x: nat, n: nat): (r: seq<nat>)
    ensures |r| == n
  {
    if n == 0 then [] else Bits(x / 2, n - 1) + [x % 2]
  }

  /** The number a bit string stands for. */
  function Value(bits: seq<nat>): (x: nat) {
    if bits == [] then 0 else 2 * Value(bits[..|bits| - 1]) + bits[|bits| - 1]
  }

  lemma {:induction false} BitsAt(x: nat, n: nat, k: nat)
    requires k < n
    ensures Bits(x, n)[n - 1 - k] == Bit(x, k)
  {
    if k == 0 {
      BitNext(x, 0);
    } else {
      BitNext(x, k - 1);
      BitsAt(x / 2, n - 1, k - 1);
    }
  }

  lemma {:induction false} ValueBits(x: nat, n: nat)
    requires x < Pow2(n)
    ensures Value(Bits(x, n)) == x
  {
    if n > 0 {
      ValueBits(x / 2, n - 1);
      assert Bits(x, n)[..n - 1] == Bits(x / 2, n - 1);
    }
  }

  /** The bits of a number in two parts. */
  lemma {:induction false} BitsParts(hi: nat, lo: nat, m: nat, n: nat)
    requires lo < Pow2(n)
    ensures Bits(hi * Pow2(n) + lo, m + n) == Bits(hi, m) + Bits(lo, n)
  {
    if n == 0 {
      assert Bits(hi, m) + [] == Bits(hi, m);
    } else {
      var x := hi * Pow2(n) + lo;
      assert x == 2 * (hi * Pow2(n - 1) + lo / 2) + lo % 2;
      Halve(lo % 2, hi * Pow2(n - 1) + lo / 2);
      BitsParts(hi, lo / 2, m, n - 1);
      assert Bits(hi, m) + (Bits(lo / 2, n - 1) + [lo % 2]) == Bits(hi, m) + Bits(lo / 2, n - 1) + [lo % 2];
    }
  }

  /** The bits of numbers of `w` bits each, one after the other. */
  function BitsOf(xs: seq<nat>, w: nat): (r: seq<nat>)
    ensures |r| == w * |xs|
  {
    if xs == [] then []
    else
      assert w + w * |xs[1..]| == w * |xs|;
      Bits(xs[0], w) + BitsOf(xs[1..], w)
  }

  lemma {:induction false} BitsOfJoin(a: seq<nat>, b: seq<nat>, w: nat)
    ensures BitsOf(a + b, w) == BitsOf(a, w) + BitsOf(b, w)
  {
    if a == [] {
      assert a + b == b;
    } else {
      assert (a + b)[1..] == a[1..] + b;
      BitsOfJoin(a[1..], b, w);
      Assoc(Bits(a[0], w), BitsOf(a[1..], w), BitsOf(b, w));
    }
  }

  /** Octets are known by their bits. */
  lemma {:induction false} OctetBitsInjective(a: seq<byte>, b: seq<byte>)
    requires BitsOf(a, 8) == BitsOf(b, 8)
    ensures a == b
    decreases |a|
  {
    if a != [] {
      var x, y := BitsOf(a, 8), BitsOf(b, 8);
      assert |a| == |b|;
      assert x[..8] == Bits(a[0], 8) && y[..8] == Bits(b[0], 8);
      assert x[8..] == BitsOf(a[1..], 8) && y[8..] == BitsOf(b[1..], 8);
      assert Pow2(8) == 256;
      ValueBits(a[0], 8);
      ValueBits(b[0], 8);
      OctetBitsInjective(a[1..], b[1..]);
      assert a == [a[0]] + a[1..] && b == [b[0]] + b[1..];
    }
  }

  lemma {:induction false} BitsOfTake(xs: seq<nat>, n: nat, w: nat)
    requires n <= |xs|
    ensures w * n <= |BitsOf(xs, w)| && BitsOf(xs[..n], w) == BitsOf(xs, w)[..w * n]
  {
    assert xs == xs[..n] + xs[n..];
    BitsOfJoin(xs[..n], xs[n..], w);
  }

  lemma BitsOfAt(xs: seq<nat>, k: nat, w: nat)
    requires k < |xs|
    ensures w * k + w <= |BitsOf(xs, w)| && BitsOf(xs, w)[w * k..w * k + w] == Bits(xs[k], w)
  {
    var a, b := xs[..k], xs[k + 1..];
    assert xs == a + ([xs[k]] + b) && ([xs[k]] + b)[1..] == b;
    BitsOfJoin(a, [xs[k]] + b, w);
  }
}
