/**
 Base64 by its bits: what sections 4 and 5 of RFC 4648 say of every character and every octet, with the two
 alphabets written out.
 */
module Base64Bits {
  import opened Bytes
  import opened Base64

  const UPPER := "ABCDEFGHIJKLMNOPQRSTUVWXYZ"
  const LOWER := "abcdefghijklmnopqrstuvwxyz"
  const DIGITS := "0123456789"

  /** Table 1 of section 4. */
  const ALPHABET := UPPER + LOWER + DIGITS + "+/"

  /** Table 2 of section 5. */
  const URL_ALPHABET := UPPER + LOWER + DIGITS + "-_"

  // ----- the tables

  lemma UpperIs(k: nat)
    requires k < 26
    ensures |UPPER| == 26 && UPPER[k] as int == 65 + k
  {}

  lemma LowerIs(k: nat)
    requires k < 26
    ensures |LOWER| == 26 && LOWER[k] as int == 97 + k
  {}

  lemma DigitIs(k: nat)
    requires k < 10
    ensures |DIGITS| == 10 && DIGITS[k] as int == 48 + k
  {}

  lemma Sizes()
    ensures |UPPER| == 26 == |LOWER| && |DIGITS| == 10 && |ALPHABET| == 64 == |URL_ALPHABET|
  {}

  lemma CharIs(v: Sextet)
    ensures |ALPHABET| == 64 == |URL_ALPHABET|
    ensures CharOf(v) == ALPHABET[v] as int && ToUri(CharOf(v)) == URL_ALPHABET[v] as int
  {
    Sizes();
    if v < 26 {
      UpperIs(v);
    } else if v < 52 {
      LowerIs(v - 26);
    } else if v < 62 {
      DigitIs(v - 52);
    }
  }

  // ----- groups

  lemma Join3<T>(a: seq<T>, b: seq<T>, c: seq<T>, d: seq<T>, e: seq<T>, f: seq<T>)
    ensures (a + b) + (c + d) + (e + f) == a + (b + c) + (d + e) + f
  {}

  lemma BitsOfOne(a: nat, w: nat)
    ensures BitsOf([a], w) == Bits(a, w)
  {
    assert [a][1..] == [] && Bits(a, w) + [] == Bits(a, w);
  }

  lemma BitsOfTwo(a: nat, b: nat, w: nat)
    ensures BitsOf([a, b], w) == Bits(a, w) + Bits(b, w)
  {
    BitsOfOne(a, w);
    BitsOfOne(b, w);
    BitsOfJoin([a], [b], w);
    assert [a] + [b] == [a, b];
  }

  lemma BitsOfThree(a: nat, b: nat, c: nat, w: nat)
    ensures BitsOf([a, b, c], w) == Bits(a, w) + Bits(b, w) + Bits(c, w)
  {
    BitsOfTwo(a, b, w);
    BitsOfOne(c, w);
    BitsOfJoin([a, b], [c], w);
    assert [a, b] + [c] == [a, b, c];
  }

  lemma BitsOfFour(a: nat, b: nat, c: nat, d: nat, w: nat)
    ensures BitsOf([a, b, c, d], w) == Bits(a, w) + Bits(b, w) + Bits(c, w) + Bits(d, w)
  {
    BitsOfThree(a, b, c, w);
    BitsOfOne(d, w);
    BitsOfJoin([a, b, c], [d], w);
    assert [a, b, c] + [d] == [a, b, c, d];
  }

  lemma OctetValues(v0: Sextet, v1: Sextet, v2: Sextet, v3: Sextet)
    ensures First(v0, v1) == v0 * 4 + v1 / 16
    ensures Second(v1, v2) == v1 % 16 * 16 + v2 / 4
    ensures Third(v2, v3) == v2 % 4 * 64 + v3
  {}

  lemma Powers()
    ensures Pow2(2) == 4 && Pow2(4) == 16 && Pow2(6) == 64
  {}

  lemma OctetBits(v0: Sextet, v1: Sextet, v2: Sextet, v3: Sextet, a: byte, b: byte, c: byte)
    requires a == v0 * 4 + v1 / 16 && b == v1 % 16 * 16 + v2 / 4 && c == v2 % 4 * 64 + v3
    ensures Bits(a, 8) == Bits(v0, 6) + Bits(v1 / 16, 2)
    ensures Bits(b, 8) == Bits(v1 % 16, 4) + Bits(v2 / 4, 4)
    ensures Bits(c, 8) == Bits(v2 % 4, 2) + Bits(v3, 6)
  {
    Powers();
    BitsParts(v0, v1 / 16, 6, 2);
    BitsParts(v1 % 16, v2 / 4, 4, 4);
    BitsParts(v2 % 4, v3, 2, 6);
  }

  lemma CutAtTwo(v: Sextet)
    ensures Bits(v, 6) == Bits(v / 16, 2) + Bits(v % 16, 4)
  {
    Powers();
    assert v == v / 16 * 16 + v % 16;
    BitsParts(v / 16, v % 16, 2, 4);
  }

  lemma CutAtFour(v: Sextet)
    ensures Bits(v, 6) == Bits(v / 4, 4) + Bits(v % 4, 2)
  {
    Powers();
    assert v == v / 4 * 4 + v % 4;
    BitsParts(v / 4, v % 4, 4, 2);
  }

  /** The three octets of four sextets have the same bits. */
  lemma GroupBits(v0: Sextet, v1: Sextet, v2: Sextet, v3: Sextet, a: byte, b: byte, c: byte)
    requires a == First(v0, v1) && b == Second(v1, v2) && c == Third(v2, v3)
    ensures BitsOf([a, b, c], 8) == BitsOf([v0, v1, v2, v3], 6)
  {
    OctetValues(v0, v1, v2, v3);
    OctetBits(v0, v1, v2, v3, a, b, c);
    CutAtTwo(v1);
    CutAtFour(v2);
    Join3(Bits(v0, 6), Bits(v1 / 16, 2), Bits(v1 % 16, 4), Bits(v2 / 4, 4), Bits(v2 % 4, 2), Bits(v3, 6));
    BitsOfThree(a, b, c, 8);
    BitsOfFour(v0, v1, v2, v3, 6);
  }

  // ----- encoding

  /** Text `t` spells the sextets `vs`. */
  ghost predicate Spells(t: seq<byte>, vs: seq<Sextet>, alphabet: string)
    requires |alphabet| == 64
  {
    |t| == |vs| && forall k :: 0 <= k < |vs| ==> t[k] == alphabet[vs[k]] as int
  }

  lemma SpellsJoin(t: seq<byte>, vs: seq<Sextet>, u: seq<byte>, ws: seq<Sextet>, alphabet: string)
    requires |alphabet| == 64 && Spells(t, vs, alphabet) && Spells(u, ws, alphabet)
    ensures Spells(t + u, vs + ws, alphabet)
  {}

  lemma QuadSpells(x: seq<byte>, vs: seq<Sextet>)
    requires 1 <= |x| <= 3 && vs == Sextets(x[0], OctetAt(x, 1), OctetAt(x, 2))
    ensures |ALPHABET| == 64 && Spells(Quad(x), vs[..|x| + 1], ALPHABET)
  {
    Sizes();
    QuadShape(x, vs);
    forall k | 0 <= k <= |x| ensures Quad(x)[k] == ALPHABET[vs[k]] as int { CharIs(vs[k]); }
  }

  /** Zeros that fill the last sextet up. */
  function Fill(n: nat): (r: seq<nat>) { if n % 3 == 0 then [] else if n % 3 == 1 then [0, 0, 0, 0] else [0, 0] }

  lemma ZeroBits()
    ensures Bits(0, 8) == [0, 0, 0, 0, 0, 0, 0, 0]
  {}

  lemma TakeOne(a: seq<nat>, b: seq<nat>, c: seq<nat>)
    requires |a| == 8 && b == [0, 0, 0, 0, 0, 0, 0, 0]
    ensures (a + b + c)[..12] == a + [0, 0, 0, 0]
  {}

  lemma TakeTwo(a: seq<nat>, b: seq<nat>, c: seq<nat>)
    requires |a| == 8 == |b| && c == [0, 0, 0, 0, 0, 0, 0, 0]
    ensures (a + b + c)[..18] == a + b + [0, 0]
  {}

  lemma SextetsBits(vs: seq<Sextet>, a: byte, b: byte, c: byte)
    requires vs == Sextets(a, b, c)
    ensures BitsOf(vs, 6) == BitsOf([a, b, c], 8)
  {
    SextetsInverse(a, b, c);
    GroupBits(vs[0], vs[1], vs[2], vs[3], a, b, c);
    assert vs == [vs[0], vs[1], vs[2], vs[3]];
  }

  lemma FirstSextets(vs: seq<Sextet>, a: byte, b: byte, c: byte, n: nat)
    requires |vs| == 4 && BitsOf(vs, 6) == BitsOf([a, b, c], 8) && n <= 4
    ensures BitsOf(vs[..n], 6) == (Bits(a, 8) + Bits(b, 8) + Bits(c, 8))[..6 * n]
  {
    BitsOfThree(a, b, c, 8);
    BitsOfTake(vs, n, 6);
  }

  lemma TailBits(x: seq<byte>, vs: seq<Sextet>, a: byte, b: byte, c: byte)
    requires (x == [a] && b == 0 == c) || (x == [a, b] && c == 0) || x == [a, b, c]
    requires |vs| == 4 && BitsOf(vs, 6) == BitsOf([a, b, c], 8)
    ensures BitsOf(vs[..|x| + 1], 6) == BitsOf(x, 8) + Fill(|x|)
  {
    FirstSextets(vs, a, b, c, |x| + 1);
    ZeroBits();
    if x == [a] {
      BitsOfOne(a, 8);
      TakeOne(Bits(a, 8), Bits(b, 8), Bits(c, 8));
    } else if x == [a, b] {
      BitsOfTwo(a, b, 8);
      TakeTwo(Bits(a, 8), Bits(b, 8), Bits(c, 8));
    } else {
      BitsOfThree(a, b, c, 8);
    }
  }

  /** Text `u` spells `vs`, which have the bits of `x` and zeros up to a whole sextet. */
  ghost predicate EncodesAs(u: seq<byte>, vs: seq<Sextet>, x: seq<byte>, alphabet: string)
    requires |alphabet| == 64
  {
    Spells(u, vs, alphabet) && BitsOf(vs, 6) == BitsOf(x, 8) + Fill(|x|)
  }

  /** The characters of a group spell its bits. */
  lemma GroupSpells(x: seq<byte>) returns (vs: seq<Sextet>)
    requires 1 <= |x| <= 3
    ensures |ALPHABET| == 64 && EncodesAs(Quad(x), vs, x, ALPHABET)
  {
    var a, b, c := x[0], OctetAt(x, 1), OctetAt(x, 2);
    var all := Sextets(a, b, c);
    SextetsBits(all, a, b, c);
    QuadSpells(x, all);
    assert x == if |x| == 1 then [a] else if |x| == 2 then [a, b] else [a, b, c];
    TailBits(x, all, a, b, c);
    vs := all[..|x| + 1];
  }

  lemma StepBits(h: seq<nat>, t: seq<nat>, hv: seq<nat>, tv: seq<nat>, fill: seq<nat>, v: nat, w: nat)
    requires BitsOf(hv, v) == BitsOf(h, w) + [] && BitsOf(tv, v) == BitsOf(t, w) + fill
    ensures BitsOf(hv + tv, v) == BitsOf(h + t, w) + fill
  {
    BitsOfJoin(hv, tv, v);
    BitsOfJoin(h, t, w);
    Assoc(BitsOf(h, w), BitsOf(t, w), fill);
  }

  lemma FillStep(n: nat)
    ensures Fill(3) == [] && Fill(3 + n) == Fill(n)
  {}

  lemma EncodesJoin(q: seq<byte>, hv: seq<Sextet>, h: seq<byte>, u: seq<byte>, tv: seq<Sextet>, t: seq<byte>,
                    alphabet: string)
    requires |alphabet| == 64 && |h| == 3 && EncodesAs(q, hv, h, alphabet) && EncodesAs(u, tv, t, alphabet)
    ensures EncodesAs(q + u, hv + tv, h + t, alphabet)
  {
    SpellsJoin(q, hv, u, tv, alphabet);
    FillStep(|t|);
    StepBits(h, t, hv, tv, Fill(|t|), 6, 8);
  }

  lemma UnpaddedHead(x: seq<byte>, h: seq<byte>, t: seq<byte>)
    requires |h| == 3 && x == h + t && t != []
    ensures Unpadded(x) == Quad(h) + Unpadded(t)
  {
    assert x[..3] == h && x[3..] == t;
  }

  /** The characters of an encoding spell its bits. */
  lemma {:induction false} EncodingSpells(x: seq<byte>) returns (vs: seq<Sextet>)
    ensures |ALPHABET| == 64 && EncodesAs(Unpadded(x), vs, x, ALPHABET)
    decreases |x|
  {
    Sizes();
    if x == [] {
      vs := [];
    } else if |x| <= 3 {
      vs := GroupSpells(x);
    } else {
      var h, t := x[..3], x[3..];
      assert x == h + t;
      var hv := GroupSpells(h);
      var tv := EncodingSpells(t);
      vs := hv + tv;
      EncodesJoin(Quad(h), hv, h, Unpadded(t), tv, t, ALPHABET);
      UnpaddedHead(x, h, t);
    }
  }

  /** Bits `6k` to `6k + 5` of the octets, zeros behind them, read as a number. */
  function Sixth(x: seq<byte>, k: nat): (v: nat)
    requires 6 * k + 6 <= 8 * |x| + 4
  {
    Value((BitsOf(x, 8) + [0, 0, 0, 0])[6 * k..6 * k + 6])
  }

  lemma FillSize(n: nat)
    ensures 6 * UnpaddedSize(n) == 8 * n + |Fill(n)| && Fill(n) <= [0, 0, 0, 0] && UnpaddedSize(n) == (8 * n + 5) / 6
  {
    var q, r := n / 3, n % 3;
    assert n == 3 * q + r;
    Thirds(4 * n + 2, if r == 0 then 4 * q else 4 * q + r + 1, if r == 0 then 2 else r - 1);
  }

  lemma PrefixSlice(all: seq<nat>, more: seq<nat>, i: nat, j: nat)
    requires i <= j <= |all| && all <= more
    ensures all[i..j] == more[i..j]
  {}

  lemma PieceIs(all: seq<nat>, vs: seq<nat>, k: nat, w: nat, i: nat, j: nat)
    requires k < |vs| && vs[k] < Pow2(w) && BitsOf(vs, w) <= all && i == w * k && j == i + w
    ensures j <= |all| && Value(all[i..j]) == vs[k]
  {
    BitsOfAt(vs, k, w);
    PrefixSlice(BitsOf(vs, w), all, i, j);
    ValueBits(vs[k], w);
  }

  lemma SixthIs(x: seq<byte>, vs: seq<Sextet>, k: nat)
    requires BitsOf(vs, 6) == BitsOf(x, 8) + Fill(|x|) && |vs| == UnpaddedSize(|x|) && k < |vs|
    ensures 6 * k + 6 <= 8 * |x| + 4 && Sixth(x, k) == vs[k]
  {
    FillSize(|x|);
    Powers();
    PieceIs(BitsOf(x, 8) + [0, 0, 0, 0], vs, k, 6, 6 * k, 6 * k + 6);
  }

  /**
   Section 4, character by character: as many as it takes sextets to hold the bits, each the character of the
   alphabet at the number its six bits form, and then equals signs up to a multiple of four.
   */
  lemma EncodeByBits(x: seq<byte>, k: nat)
    requires k < |Encode(x)|
    ensures |ALPHABET| == 64 && |Encode(x)| == (|x| + 2) / 3 * 4
    ensures k < (8 * |x| + 5) / 6 ==>
              6 * k + 6 <= 8 * |x| + 4 && Sixth(x, k) < 64 && Encode(x)[k] == ALPHABET[Sixth(x, k)] as int
    ensures k >= (8 * |x| + 5) / 6 ==> Encode(x)[k] == '=' as int
  {
    Sizes();
    EncodeLength(x);
    FillSize(|x|);
    if k < UnpaddedSize(|x|) {
      var vs := EncodingSpells(x);
      SixthIs(x, vs, k);
    }
  }

  lemma {:induction false} UriKeeps(u: seq<byte>, pad: seq<byte>, k: nat)
    requires (forall i :: 0 <= i < |u| ==> u[i] != PAD) && (forall i :: 0 <= i < |pad| ==> pad[i] == PAD)
    ensures |UriEncode(u + pad)| == |u| && (k < |u| ==> UriEncode(u + pad)[k] == ToUri(u[k]))
    decreases |u| + |pad|
  {
    var s := u + pad;
    if pad != [] {
      assert s[..|s| - 1] == u + pad[..|pad| - 1];
      UriKeeps(u, pad[..|pad| - 1], k);
    } else if u != [] {
      assert s == u && u[..|u| - 1] + [] == u[..|u| - 1];
      UriKeeps(u[..|u| - 1], [], k);
    }
  }

  /** Section 5 the same, with its own alphabet and without the equals signs. */
  lemma UriEncodeByBits(x: seq<byte>, k: nat)
    requires k < |UriEncode(Encode(x))|
    ensures |URL_ALPHABET| == 64 && |UriEncode(Encode(x))| == (8 * |x| + 5) / 6
    ensures 6 * k + 6 <= 8 * |x| + 4 && Sixth(x, k) < 64 && UriEncode(Encode(x))[k] == URL_ALPHABET[Sixth(x, k)] as int
  {
    var u := Unpadded(x);
    Sizes();
    UnpaddedLength(x);
    FillSize(|x|);
    var vs := EncodingSpells(x);
    forall i | 0 <= i < |u| ensures u[i] == CharOf(vs[i]) != PAD {
      CharIs(vs[i]);
      TablesInverse(vs[i]);
    }
    UriKeeps(u, Padding(|x|), k);
    SixthIs(x, vs, k);
    CharIs(vs[k]);
  }

  // ----- decoding

  lemma ValueIs(v: Sextet)
    ensures |ALPHABET| == 64 == |URL_ALPHABET|
    ensures ValueOf(ALPHABET[v] as int) == v && FromUri(URL_ALPHABET[v] as int) == ALPHABET[v] as int
    ensures ALPHABET[v] as int < 128 && URL_ALPHABET[v] as int < 128
  {
    CharIs(v);
    TablesInverse(v);
  }

  /** The characters of `u` are in the alphabet, with the values `vs`. */
  ghost predicate Means(u: seq<byte>, vs: seq<Sextet>) {
    |u| == |vs| && forall k :: 0 <= k < |u| ==> ValueOf(u[k]) == vs[k]
  }

  /** As many octets as the bits of `vs` fill, with those bits. */
  ghost predicate HasBits(r: seq<byte>, vs: seq<Sextet>) {
    |r| == 6 * |vs| / 8 && BitsOf(r, 8) == BitsOf(vs, 6)[..8 * |r|]
  }

  lemma TailOctets(q: seq<byte>, vs: seq<Sextet>, v0: Sextet, v1: Sextet, v2: Sextet, v3: Sextet)
    requires |q| <= 4 && Means(q, vs) && vs <= [v0, v1, v2, v3]
    ensures Base64.Octets(q) == [First(v0, v1), Second(v1, v2), Third(v2, v3)][..if |q| == 0 then 0 else |q| - 1]
  {}

  lemma TakeBits(r: seq<byte>, vs: seq<Sextet>, a: byte, b: byte, c: byte, all: seq<Sextet>)
    requires |all| == 4 && BitsOf([a, b, c], 8) == BitsOf(all, 6) && vs <= all
    requires |r| == (if |vs| == 0 then 0 else |vs| - 1) && r <= [a, b, c]
    ensures HasBits(r, vs)
  {
    BitsOfTake([a, b, c], |r|, 8);
    BitsOfTake(all, |vs|, 6);
    assert r == [a, b, c][..|r|] && vs == all[..|vs|];
    assert 8 * |r| <= 6 * |vs|;
  }

  lemma TailHasBits(q: seq<byte>, vs: seq<Sextet>)
    requires |q| <= 4 && Means(q, vs)
    ensures HasBits(Base64.Octets(q), vs)
  {
    var v0: Sextet, v1: Sextet := if |vs| > 0 then vs[0] else 0, if |vs| > 1 then vs[1] else 0;
    var v2: Sextet, v3: Sextet := if |vs| > 2 then vs[2] else 0, if |vs| > 3 then vs[3] else 0;
    var a, b, c := First(v0, v1), Second(v1, v2), Third(v2, v3);
    TailOctets(q, vs, v0, v1, v2, v3);
    GroupBits(v0, v1, v2, v3, a, b, c);
    TakeBits(Base64.Octets(q), vs, a, b, c, [v0, v1, v2, v3]);
  }

  lemma HasBitsJoin(h: seq<byte>, hv: seq<Sextet>, t: seq<byte>, tv: seq<Sextet>)
    requires |hv| == 4 && HasBits(h, hv) && HasBits(t, tv)
    ensures HasBits(h + t, hv + tv)
  {
    BitsOfJoin(h, t, 8);
    BitsOfJoin(hv, tv, 6);
  }

  lemma DecodedHead(u: seq<byte>, h: seq<byte>, t: seq<byte>)
    requires |h| == 4 && t != [] && u == h + t && ValueOf(u[0]) != -1
    ensures Decoded(u) == Body(Base64.Octets(h) + Decoded(t).octets, Decoded(t).complete)
  {
    assert u[..4] == h && u[4..] == t;
  }

  /** Text over the alphabet decodes to the octets its bits fill. */
  lemma {:induction false} DecodedHasBits(u: seq<byte>, vs: seq<Sextet>)
    requires Means(u, vs)
    ensures Decoded(u).complete && HasBits(Decoded(u).octets, vs)
  {
    if |u| <= 4 {
      TailHasBits(u, vs);
    } else {
      var h, t, hv, tv := u[..4], u[4..], vs[..4], vs[4..];
      assert u == h + t && vs == hv + tv;
      DecodedHead(u, h, t);
      TailHasBits(h, hv);
      DecodedHasBits(t, tv);
      HasBitsJoin(Base64.Octets(h), hv, Decoded(t).octets, tv);
    }
  }

  lemma WrittenIs(n: nat)
    ensures WrittenSize(n) == 6 * n / 8
  {}

  lemma {:induction false} StripMeans(u: seq<byte>, vs: seq<Sextet>, pad: seq<byte>)
    requires Means(u, vs) && forall k :: 0 <= k < |pad| ==> ValueOf(pad[k]) == -1
    ensures Strip(u + pad) == u
  {
    StripPadding(u, pad);
  }

  lemma MeansDecodes(u: seq<byte>, vs: seq<Sextet>, pad: seq<byte>, s: seq<byte>)
    requires Means(u, vs) && Ascii(u) && Ascii(pad) && forall k :: 0 <= k < |pad| ==> ValueOf(pad[k]) == -1
    requires s == u + pad && 6 * |u| / 8 <= DecodingSize(|s|)
    ensures Decodable(s) && HasBits(Decode(s), vs)
  {
    StripMeans(u, vs, pad);
    WrittenIs(|u|);
    DecodableByLook(s, u);
    assert s[..LookedAt(u)] == u[..LookedAt(u)] && s[|u|..] == pad;
    DecodedHasBits(u, vs);
  }

  lemma SpelledMeans(t: seq<byte>, vs: seq<Sextet>)
    requires |ALPHABET| == 64 && Spells(t, vs, ALPHABET)
    ensures Means(t, vs) && Ascii(t)
  {
    forall k | 0 <= k < |t| ensures ValueOf(t[k]) == vs[k] && t[k] < 128 { ValueIs(vs[k]); }
  }

  /** Section 4 read back: text over the alphabet, padded to a multiple of four, gives the octets its bits fill. */
  lemma DecodeByBits(t: seq<byte>, vs: seq<Sextet>, pad: seq<byte>)
    requires |ALPHABET| == 64 && Spells(t, vs, ALPHABET) && (|t| + |pad|) % 4 == 0
    requires forall k :: 0 <= k < |pad| ==> pad[k] == '=' as int
    ensures Decodable(t + pad) && HasBits(Decode(t + pad), vs)
  {
    SpelledMeans(t, vs);
    MeansDecodes(t, vs, pad, t + pad);
  }

  lemma RestoreSpelled(data: seq<byte>, vs: seq<Sextet>)
    requires |URL_ALPHABET| == 64 && Spells(data, vs, URL_ALPHABET)
    ensures |ALPHABET| == 64 && Spells(UriRestore(data), vs, ALPHABET)
  {
    Sizes();
    forall k | 0 <= k < |data| ensures UriRestore(data)[k] == ALPHABET[vs[k]] as int { ValueIs(vs[k]); }
  }

  /** Section 5 the same, without padding: every text over its alphabet. */
  lemma UriDecodeByBits(data: seq<byte>, vs: seq<Sextet>)
    requires |URL_ALPHABET| == 64 && Spells(data, vs, URL_ALPHABET)
    ensures Decodable(UriBuffer(data)) && HasBits(Decode(UriBuffer(data)), vs)
  {
    RestoreSpelled(data, vs);
    SpelledMeans(UriRestore(data), vs);
    MeansDecodes(UriRestore(data), vs, UriPad(|data|), UriBuffer(data));
  }

  /** What a character outside the alphabet makes of the octets it is in: all bits it should have given are set. */
  lemma OutsideAlphabet(v: Sextet)
    ensures First(v, -1) == Second(v, -1) == Third(v, -1) == 255
    ensures First(-1, v) == 252 + v / 16 && Second(-1, v) == 240 + v / 4 && Third(-1, v) == 192 + v
  {}
}
