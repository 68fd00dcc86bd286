/**
 Base64 and its URL-safe form (sections 4 and 5 of RFC 4648), as the token code computes them.
 Characters are their ASCII codes.
 */
module Base64 {
  import opened Bytes
  import opened Wrappers

  type Sextet = v: int | 0 <= v < 64

  const PAD: byte := 61         // '='
  const PLUS: byte := 43        // '+'
  const SLASH: byte := 47       // '/'
  const DASH: byte := 45        // '-'
  const UNDERSCORE: byte := 95  // '_'

  function EncodingSize(n: nat): (r: nat) { 4 * ((n + 2) / 3) }

  function DecodingSize(n: nat): (r: nat) { n / 4 * 3 }

  /** The encoding table: A-Z, a-z, 0-9, + and /. */
  function CharOf(v: Sextet): (c: byte) {
    if v < 26 then 65 + v else if v < 52 then 71 + v else if v < 62 then v - 4 else if v == 62 then PLUS else SLASH
  }

  /** The decoding table: -1 for a character outside the alphabet. */
  function ValueOf(c: byte): (v: int)
    ensures -1 <= v < 64
  {
    if 65 <= c <= 90 then c - 65 else if 97 <= c <= 122 then c - 71 else if 48 <= c <= 57 then c + 4
    else if c == PLUS then 62 else if c == SLASH then 63 else -1
  }

  lemma TablesInverse(v: Sextet)
    ensures ValueOf(CharOf(v)) == v && CharOf(v) != PAD && CharOf(v) < 128
  {}

  // ----- encoding

  /** The characters of the octets that are there; octets past the end count as zero. */
  function Quad(x: seq<byte>): (r: seq<byte>)
    requires 1 <= |x| <= 3
    ensures |r| == |x| + 1
  {
    var b := if |x| > 1 then x[1] else 0;
    var c := if |x| > 2 then x[2] else 0;
    [CharOf(x[0] / 4), CharOf(x[0] % 4 * 16 + b / 16)] +
    (if |x| > 1 then [CharOf(b % 16 * 4 + c / 64)] else []) +
    (if |x| > 2 then [CharOf(c % 64)] else [])
  }

  /** The encoding without padding. */
  function Unpadded(x: seq<byte>): (r: seq<byte>) {
    if x == [] then [] else if |x| <= 3 then Quad(x) else Quad(x[..3]) + Unpadded(x[3..])
  }

  function Padding(n: nat): (r: seq<byte>) {
    if n % 3 == 0 then [] else if n % 3 == 1 then [PAD, PAD] else [PAD]
  }

  function Encode(x: seq<byte>): (r: seq<byte>) { Unpadded(x) + Padding(|x|) }

  /** The length of an unpadded encoding. */
  function UnpaddedSize(n: nat): (r: nat) { (4 * n + 2) / 3 }

  lemma SizeStep(n: nat)
    requires n >= 3
    ensures UnpaddedSize(n) == 4 + UnpaddedSize(n - 3)
  {}

  lemma Thirds(a: nat, q: nat, r: nat)
    requires a == 3 * q + r && r < 3
    ensures a / 3 == q && a % 3 == r
  {}

  lemma SizePadded(n: nat)
    ensures UnpaddedSize(n) + |Padding(n)| == EncodingSize(n)
  {
    var q, r := n / 3, n % 3;
    if r == 0 {
      Thirds(4 * n + 2, 4 * q, 2);
      Thirds(n + 2, q, 2);
    } else {
      Thirds(4 * n + 2, 4 * q + r + 1, r - 1);
      Thirds(n + 2, q + 1, r - 1);
    }
  }

  lemma {:induction false} UnpaddedLength(x: seq<byte>)
    ensures |Unpadded(x)| == UnpaddedSize(|x|)
  {
    if |x| > 3 {
      UnpaddedLength(x[3..]);
      SizeStep(|x|);
    }
  }

  lemma EncodeLength(x: seq<byte>)
    ensures |Encode(x)| == EncodingSize(|x|) && |Unpadded(x)| == UnpaddedSize(|x|)
  {
    UnpaddedLength(x);
    SizePadded(|x|);
  }

  lemma UnpaddedStep(x: seq<byte>, i: nat)
    requires i + 3 <= |x|
    ensures Unpadded(x[i..]) == Quad(x[i..i + 3]) + Unpadded(x[i + 3..])
  {
    assert x[i..][..3] == x[i..i + 3] && x[i..][3..] == x[i + 3..];
    if |x| == i + 3 {
      assert x[i..] == x[i..i + 3] && Quad(x[i..]) + [] == Quad(x[i..]);
    }
  }

  /** Writes four characters at `result[j]`. */
  method Put(result: array<byte>, j: nat, a: byte, b: byte, c: byte, d: byte)
    requires j + 4 <= result.Length
    modifies result
    ensures result[..j + 4] == old(result[..j]) + [a, b, c, d]
  {
    result[j], result[j + 1], result[j + 2], result[j + 3] := a, b, c, d;
  }

  /** Writes the characters of the three octets at `input[i]`. */
  method EncodeTriple(input: seq<byte>, i: nat, result: array<byte>, j: nat)
    requires i + 3 <= |input| && j + 4 <= result.Length
    modifies result
    ensures result[..j + 4] == old(result[..j]) + Quad(input[i..i + 3])
  {
    var first, second, third := input[i], input[i + 1], input[i + 2];
    Put(result, j, CharOf(first / 4), CharOf(first % 4 * 16 + second / 16),
        CharOf(second % 16 * 4 + third / 64), CharOf(third % 64));
  }

  /** `done` encodes the first `i` octets, and there is room for the rest. */
  ghost predicate EncodedTo(x: seq<byte>, size: nat, i: nat, j: nat, done: seq<byte>) {
    && i <= |x| && i % 3 == 0 && j == i / 3 * 4 && j == |done| <= size == EncodingSize(|x|)
    && Unpadded(x) == done + Unpadded(x[i..])
  }

  lemma EncodedOn(x: seq<byte>, size: nat, i: nat, j: nat, done: seq<byte>)
    requires EncodedTo(x, size, i, j, done) && i + 3 <= |x|
    ensures j + 4 <= size && EncodedTo(x, size, i + 3, j + 4, done + Quad(x[i..i + 3]))
  {
    UnpaddedStep(x, i);
    Assoc(done, Quad(x[i..i + 3]), Unpadded(x[i + 3..]));
  }

  /** The last one or two octets, padded. */
  method EncodeTail(input: seq<byte>, i: nat, result: array<byte>, j: nat) returns (k: nat)
    requires i <= |input| < i + 3 && i % 3 == 0 && j == i / 3 * 4
    requires result.Length == EncodingSize(|input|) && j <= result.Length
    modifies result
    ensures k <= result.Length && result[..k] == old(result[..j]) + Unpadded(input[i..]) + Padding(|input|)
  {
    if |input| % 3 == 2 {
      var first, second := input[i], input[i + 1];
      Put(result, j, CharOf(first / 4), CharOf(first % 4 * 16 + second / 16), CharOf(second % 16 * 4), PAD);
      assert Unpadded(input[i..]) == Quad(input[i..]);
      return j + 4;
    } else if |input| % 3 == 1 {
      var first := input[i];
      Put(result, j, CharOf(first / 4), CharOf(first % 4 * 16), PAD, PAD);
      assert Unpadded(input[i..]) == Quad(input[i..]);
      return j + 4;
    }
    assert Unpadded(input[i..]) == [];
    return j;
  }

  method Base64Encode(input: seq<byte>) returns (r: seq<byte>)
    ensures r == Encode(input)
  {
    var len := |input|;
    var result := new byte[EncodingSize(len)];
    var i, j := 0, 0;
    assert input[0..] == input;
    while i < len - 2
      invariant 0 <= i <= len && j <= result.Length && EncodedTo(input, result.Length, i, j, result[..j])
    {
      EncodedOn(input, result.Length, i, j, result[..j]);
      EncodeTriple(input, i, result, j);
      i, j := i + 3, j + 4;
    }
    j := EncodeTail(input, i, result, j);
    r := result[..j];
  }

  // ----- decoding

  /** The input up to its last character of the alphabet. */
  function Strip(s: seq<byte>): (r: seq<byte>)
    ensures |r| <= |s| && r == s[..|r|]
  {
    if s == [] || ValueOf(s[|s| - 1]) != -1 then s else Strip(s[..|s| - 1])
  }

  /** `left | right` in the low octet, where `left` has been shifted above the bits of `right`; -1 has all bits set. */
  function Combine(left: byte, right: int): (b: byte)
    requires right == -1 || 0 <= left + right < 256
  {
    if right == -1 then 255 else left + right
  }

  /** `v >> n` for n = 2 or 4 (`d` is 4 or 16): the sign is kept. */
  function ShiftRight(v: int, d: int): (r: int)
    requires -1 <= v < 64 && (d == 4 || d == 16)
    ensures -1 <= r < 64 / d
  {
    if v == -1 then -1 else v / d
  }

  function First(a: int, b: int): (r: byte)
    requires -1 <= a < 64 && -1 <= b < 64
  {
    Combine(a * 4 % 256, ShiftRight(b, 16))
  }

  function Second(b: int, c: int): (r: byte)
    requires -1 <= b < 64 && -1 <= c < 64
  {
    Combine(b % 16 * 16, ShiftRight(c, 4))
  }

  function Third(c: int, d: int): (r: byte)
    requires -1 <= c < 64 && -1 <= d < 64
  {
    Combine(c % 4 * 64, d)
  }

  /** The octets of at most four characters: one fewer than the characters. */
  function Octets(p: seq<byte>): (r: seq<byte>)
    requires |p| <= 4
    ensures |r| == if |p| == 0 then 0 else |p| - 1
  {
    (if |p| >= 2 then [First(ValueOf(p[0]), ValueOf(p[1]))] else []) +
    (if |p| >= 3 then [Second(ValueOf(p[1]), ValueOf(p[2]))] else []) +
    (if |p| >= 4 then [Third(ValueOf(p[2]), ValueOf(p[3]))] else [])
  }

  /** What is written before the loop stops, and whether it ran to the end. */
  datatype Body = Body(octets: seq<byte>, complete: bool)

  function Decoded(p: seq<byte>): (r: Body) {
    if |p| <= 4 then Body(Octets(p), true)
    else if ValueOf(p[0]) == -1 then Body([], false)
    else var rest := Decoded(p[4..]); Body(Octets(p[..4]) + rest.octets, rest.complete)
  }

  function WrittenSize(n: nat): (r: nat) {
    if n == 0 then 0 else (n - 1) / 4 * 3 + (n - 1) % 4
  }

  predicate Ascii(s: seq<byte>) { forall k :: 0 <= k < |s| ==> s[k] < 128 }

  /**
   Decoding `p` reads the table and writes the result inside their bounds: every character looked at is
   ASCII, since a `char` above that is negative, and there is `room` for every octet written.
   */
  predicate Safe(p: seq<byte>, room: nat) {
    if |p| <= 4 then (|p| >= 2 ==> Ascii(p)) && |Octets(p)| <= room
    else p[0] < 128 && (ValueOf(p[0]) == -1 || (Ascii(p[..4]) && room >= 3 && Safe(p[4..], room - 3)))
  }

  lemma {:induction false} SafeFits(p: seq<byte>, room: nat)
    requires Safe(p, room)
    ensures |Decoded(p).octets| <= room
  {
    if |p| > 4 && ValueOf(p[0]) != -1 {
      SafeFits(p[4..], room - 3);
    }
  }

  /** How many characters of `p` are looked at: all, or up to one outside the alphabet where a group starts. */
  function LookedAt(p: seq<byte>): (n: nat)
    ensures n <= |p|
  {
    if |p| < 2 then 0
    else if |p| <= 4 then |p|
    else if ValueOf(p[0]) == -1 then 1
    else 4 + LookedAt(p[4..])
  }

  lemma AsciiJoin(a: seq<byte>, b: seq<byte>)
    ensures Ascii(a + b) <==> Ascii(a) && Ascii(b)
  {
    assert forall k :: 0 <= k < |a| ==> (a + b)[k] == a[k];
    assert forall k :: 0 <= k < |b| ==> (a + b)[|a| + k] == b[k];
  }

  /** Where there is room for all of it, text is safe just if what is looked at is ASCII. */
  lemma {:induction false} FitsIsSafe(p: seq<byte>, room: nat)
    requires WrittenSize(|p|) <= room
    ensures Safe(p, room) <==> Ascii(p[..LookedAt(p)])
  {
    if |p| > 4 {
      if ValueOf(p[0]) == -1 {
        assert p[..1][0] == p[0];
      } else {
        var q := p[4..];
        FitsIsSafe(q, room - 3);
        assert p[..LookedAt(p)] == p[..4] + q[..LookedAt(q)];
        AsciiJoin(p[..4], q[..LookedAt(q)]);
      }
    } else {
      assert p[..|p|] == p;
    }
  }

  /** Exactly the inputs on which the decoder stays inside its table and its result. */
  predicate Decodable(s: seq<byte>) { Ascii(s[|Strip(s)|..]) && Safe(Strip(s), DecodingSize(|s|)) }

  /**
   Input with a bad character at a multiple of four gives back the whole result buffer, zero after what was
   written.
   */
  function Decode(s: seq<byte>): (r: seq<byte>)
    requires Decodable(s)
  {
    var b := Decoded(Strip(s));
    SafeFits(Strip(s), DecodingSize(|s|));
    if b.complete then b.octets else b.octets + seq(DecodingSize(|s|) - |b.octets|, _ => 0)
  }

  lemma DecodedStep(p: seq<byte>, k: nat)
    requires k + 4 < |p| && ValueOf(p[k]) != -1
    ensures Decoded(p[k..]) == Body(Octets(p[k..k + 4]) + Decoded(p[k + 4..]).octets, Decoded(p[k + 4..]).complete)
  {
    assert p[k..][..4] == p[k..k + 4] && p[k..][4..] == p[k + 4..];
  }

  /** A character above ASCII met from behind is one of those looked at. */
  lemma TrimmedAt(input: seq<byte>, rem: nat)
    requires 0 < rem <= |input| && Strip(input) == Strip(input[..rem]) && input[rem - 1] >= 128
    ensures !Ascii(input[|Strip(input)|..])
  {
    var k := |Strip(input)|;
    assert input[..rem][..rem - 1] == input[..rem - 1];
    assert k <= rem - 1;
    assert input[k..][rem - 1 - k] == input[rem - 1];
  }

  /** The length left when trailing characters outside the alphabet are dropped, all of them ASCII if `ok`. */
  method TrimmedLength(input: seq<byte>) returns (rem: nat, ok: bool)
    ensures rem <= |input| && ok == Ascii(input[|Strip(input)|..])
    ensures ok ==> input[..rem] == Strip(input)
  {
    rem := |input|;
    assert input[..rem] == input;
    while rem > 0
      invariant 0 <= rem <= |input|
      invariant Strip(input) == Strip(input[..rem]) && Ascii(input[rem..])
    {
      if input[rem - 1] >= 128 {
        TrimmedAt(input, rem);
        return rem, false;
      }
      if ValueOf(input[rem - 1]) != -1 {
        return rem, true;
      }
      assert input[..rem][..rem - 1] == input[..rem - 1];
      rem := rem - 1;
    }
    ok := true;
  }

  /** `done` is what decoding `p` writes before it gets to index `at`. */
  ghost predicate DecodedTo(p: seq<byte>, at: nat, done: seq<byte>) {
    && at <= |p|
    && Decoded(p) == Body(done + Decoded(p[at..]).octets, Decoded(p[at..]).complete)
  }

  lemma DecodedOn(p: seq<byte>, at: nat, done: seq<byte>, more: seq<byte>)
    requires DecodedTo(p, at, done) && at + 4 < |p| && ValueOf(p[at]) != -1
    requires more == done + Octets(p[at..at + 4])
    ensures DecodedTo(p, at + 4, more)
  {
    DecodedStep(p, at);
    Assoc(done, Octets(p[at..at + 4]), Decoded(p[at + 4..]).octets);
  }

  lemma DecodedStop(p: seq<byte>, at: nat, done: seq<byte>)
    requires DecodedTo(p, at, done)
    ensures at + 4 < |p| && ValueOf(p[at]) == -1 ==> Decoded(p) == Body(done, false)
    ensures at + 4 >= |p| ==> Decoded(p) == Body(done + Octets(p[at..]), true)
  {
    if at + 4 < |p| && ValueOf(p[at]) == -1 {
      assert p[at..][0] == p[at] && done + [] == done;
    }
  }

  method DecodeFour(q: seq<byte>, result: array<byte>, i: nat)
    requires |q| == 4 && i + 3 <= result.Length
    modifies result
    ensures result[..i + 3] == old(result[..i]) + Octets(q)
    ensures forall k :: i + 3 <= k < result.Length ==> result[k] == old(result[k])
  {
    var first, second, third, fourth := ValueOf(q[0]), ValueOf(q[1]), ValueOf(q[2]), ValueOf(q[3]);
    result[i], result[i + 1], result[i + 2] := First(first, second), Second(second, third), Third(third, fourth);
  }

  lemma SafeOn(p: seq<byte>, at: nat, room: int)
    requires at + 4 < |p| && room >= 0
    ensures p[at] >= 128 ==> !Safe(p[at..], room)
    ensures p[at] < 128 && ValueOf(p[at]) == -1 ==> Safe(p[at..], room)
    ensures ValueOf(p[at]) != -1 && !(Ascii(p[at..at + 4]) && room >= 3) ==> !Safe(p[at..], room)
    ensures ValueOf(p[at]) != -1 && Ascii(p[at..at + 4]) && room >= 3 ==>
            (Safe(p[at..], room) <==> Safe(p[at + 4..], room - 3))
  {
    var q := p[at..];
    assert q[0] == p[at] && q[..4] == p[at..at + 4] && q[4..] == p[at + 4..];
  }

  /** The last characters, written back to front. */
  method DecodeTail(q: seq<byte>, result: array<byte>, i: nat) returns (n: nat)
    requires |q| <= 4 && i + |Octets(q)| <= result.Length
    modifies result
    ensures n == i + |Octets(q)| && result[..n] == old(result[..i]) + Octets(q)
  {
    n := i;
    if |q| == 4 {
      result[i + 2] := Third(ValueOf(q[2]), ValueOf(q[3]));
      n := n + 1;
    }
    if |q| >= 3 {
      result[i + 1] := Second(ValueOf(q[1]), ValueOf(q[2]));
      n := n + 1;
    }
    if |q| >= 2 {
      result[i] := First(ValueOf(q[0]), ValueOf(q[1]));
      n := n + 1;
    }
  }

  /** Decoding `p` has got to index `at` and written the first `i` octets of `r`; what follows them is zero. */
  ghost predicate Decoding(p: seq<byte>, at: nat, i: nat, r: seq<byte>) {
    && at <= |p| && i <= |r| && DecodedTo(p, at, r[..i]) && Safe(p, |r|) == Safe(p[at..], |r| - i)
    && forall k :: i <= k < |r| ==> r[k] == 0
  }

  lemma DecodingStart(p: seq<byte>, r: seq<byte>)
    requires forall k :: 0 <= k < |r| ==> r[k] == 0
    ensures Decoding(p, 0, 0, r)
  {
    assert p[0..] == p && r[..0] == [] && [] + Decoded(p).octets == Decoded(p).octets;
  }

  lemma DecodingNext(p: seq<byte>, at: nat, i: nat, r: seq<byte>, next: seq<byte>)
    requires Decoding(p, at, i, r) && at + 4 < |p| && ValueOf(p[at]) != -1 && Ascii(p[at..at + 4]) &&
             i + 3 <= |r| == |next|
    requires next[..i + 3] == r[..i] + Octets(p[at..at + 4]) && forall k :: i + 3 <= k < |r| ==> next[k] == r[k]
    ensures Decoding(p, at + 4, i + 3, next)
  {
    SafeOn(p, at, |r| - i);
    DecodedOn(p, at, r[..i], next[..i + 3]);
  }

  /** A group of four characters with more behind it: a stop, a way out of bounds, or three octets. */
  method DecodeGroup(p: seq<byte>, result: array<byte>, at: nat, i: nat) returns (ok: bool, stop: bool)
    requires Decoding(p, at, i, result[..]) && at + 4 < |p|
    modifies result
    ensures !ok ==> !Safe(p, result.Length)
    ensures ok && stop ==> result[..] == old(result[..]) && Safe(p, result.Length)
    ensures ok && stop ==> Decoded(p) == Body(result[..i], false)
    ensures ok && !stop ==> Decoding(p, at + 4, i + 3, result[..])
  {
    ghost var r := result[..];
    assert r[..i] == result[..i];
    SafeOn(p, at, result.Length - i);
    DecodedStop(p, at, r[..i]);
    if p[at] >= 128 {
      return false, false;
    }
    if ValueOf(p[at]) == -1 {
      return true, true;
    }
    if !Ascii(p[at..at + 4]) || i + 3 > result.Length {
      return false, false;
    }
    DecodeFour(p[at..at + 4], result, i);
    assert result[..][..i + 3] == result[..i + 3];
    DecodingNext(p, at, i, r, result[..]);
    return true, false;
  }

  /** The tail of at most four characters. */
  method DecodeLast(p: seq<byte>, result: array<byte>, at: nat, i: nat) returns (ok: bool, n: nat)
    requires Decoding(p, at, i, result[..]) && |p| - at <= 4
    modifies result
    ensures ok == Safe(p, result.Length)
    ensures ok ==> n <= result.Length && Decoded(p) == Body(result[..n], true)
  {
    var q := p[at..];
    assert result[..][..i] == result[..i];
    DecodedStop(p, at, result[..i]);
    if (|q| >= 2 && !Ascii(q)) || i + |Octets(q)| > result.Length {
      return false, 0;
    }
    n := DecodeTail(q, result, i);
    ok := true;
  }

  /**
   Decodes trimmed input into a zeroed buffer, group by group and then the tail; not `ok` if it would leave its
   bounds.
   */
  method DecodeInto(p: seq<byte>, result: array<byte>) returns (ok: bool, n: nat, complete: bool)
    requires forall k :: 0 <= k < result.Length ==> result[k] == 0
    modifies result
    ensures ok == Safe(p, result.Length)
    ensures ok ==> n <= result.Length && Decoded(p) == Body(result[..n], complete)
    ensures ok && !complete ==> forall k :: n <= k < result.Length ==> result[k] == 0
  {
    var at, i := 0, 0;
    DecodingStart(p, result[..]);
    while |p| - at > 4
      invariant 0 <= at && 0 <= i && Decoding(p, at, i, result[..])
    {
      var fits, stop := DecodeGroup(p, result, at, i);
      if !fits {
        return false, 0, false;
      }
      if stop {
        return true, i, false;
      }
      at, i := at + 4, i + 3;
    }
    ok, n := DecodeLast(p, result, at, i);
    complete := ok;
  }

  /** `None` where the source would read outside its table or write outside its result. */
  method Base64Decode(input: seq<byte>) returns (r: Option<seq<byte>>)
    ensures r == if Decodable(input) then Some(Decode(input)) else None
  {
    var result := new byte[DecodingSize(|input|)](_ => 0);
    var rem, trimmed := TrimmedLength(input);
    if !trimmed {
      return None;
    }
    var ok, n, complete := DecodeInto(input[..rem], result);
    if !ok {
      return None;
    }
    if complete {
      return Some(result[..n]);
    }
    assert result[..] == result[..n] + seq(result.Length - n, _ => 0);
    return Some(result[..]);
  }

  // ----- round trip

  lemma FirstInverse(a: byte, b: byte)
    ensures First(a / 4, a % 4 * 16 + b / 16) == a
  {
    assert (a % 4 * 16 + b / 16) / 16 == a % 4;
  }

  lemma SecondInverse(a: byte, b: byte, c: byte)
    ensures Second(a % 4 * 16 + b / 16, b % 16 * 4 + c / 64) == b
  {
    assert (a % 4 * 16 + b / 16) % 16 == b / 16;
    assert (b % 16 * 4 + c / 64) / 4 == b % 16;
  }

  lemma ThirdInverse(b: byte, c: byte)
    ensures Third(b % 16 * 4 + c / 64, c % 64) == c
  {
    assert (b % 16 * 4 + c / 64) % 4 == c / 64;
  }

  lemma QuadShape(x: seq<byte>, vs: seq<Sextet>)
    requires 1 <= |x| <= 3 && |vs| == 4
    requires var b := if |x| > 1 then x[1] else 0; var c := if |x| > 2 then x[2] else 0;
             vs == [x[0] / 4, x[0] % 4 * 16 + b / 16, b % 16 * 4 + c / 64, c % 64]
    ensures forall k :: 0 <= k <= |x| ==> Quad(x)[k] == CharOf(vs[k])
  {}

  lemma OctetsOf(q: seq<byte>, vs: seq<Sextet>, x: seq<byte>)
    requires 2 <= |q| <= 4 == |vs| && |x| == 3 && forall k :: 0 <= k < |q| ==> ValueOf(q[k]) == vs[k]
    requires First(vs[0], vs[1]) == x[0] && Second(vs[1], vs[2]) == x[1] && Third(vs[2], vs[3]) == x[2]
    ensures Octets(q) == x[..|q| - 1]
  {}

  /** The sextets of three octets. */
  function Sextets(a: byte, b: byte, c: byte): (vs: seq<Sextet>)
    ensures |vs| == 4
  {
    [a / 4, a % 4 * 16 + b / 16, b % 16 * 4 + c / 64, c % 64]
  }

  lemma SextetsInverse(a: byte, b: byte, c: byte)
    ensures var vs := Sextets(a, b, c);
            First(vs[0], vs[1]) == a && Second(vs[1], vs[2]) == b && Third(vs[2], vs[3]) == c
  {
    FirstInverse(a, b);
    SecondInverse(a, b, c);
    ThirdInverse(b, c);
  }

  /** An octet of `x`, zero past its end. */
  function OctetAt(x: seq<byte>, k: nat): (b: byte) { if k < |x| then x[k] else 0 }

  lemma QuadValues(x: seq<byte>, vs: seq<Sextet>)
    requires 1 <= |x| <= 3 && vs == Sextets(x[0], OctetAt(x, 1), OctetAt(x, 2))
    ensures forall k :: 0 <= k <= |x| ==> ValueOf(Quad(x)[k]) == vs[k]
  {
    QuadShape(x, vs);
    forall k | 0 <= k <= |x| ensures ValueOf(Quad(x)[k]) == vs[k] { TablesInverse(vs[k]); }
  }

  /** Three octets or fewer come back from their characters. */
  lemma QuadInverse(x: seq<byte>)
    requires 1 <= |x| <= 3
    ensures Octets(Quad(x)) == x
  {
    var a, b, c := x[0], OctetAt(x, 1), OctetAt(x, 2);
    var vs := Sextets(a, b, c);
    QuadValues(x, vs);
    SextetsInverse(a, b, c);
    OctetsOf(Quad(x), vs, [a, b, c]);
  }

  /** No character of an encoding but the padding is outside the alphabet. */
  lemma {:induction false} UnpaddedInAlphabet(x: seq<byte>, k: nat)
    requires k < |Unpadded(x)|
    ensures ValueOf(Unpadded(x)[k]) != -1 && Unpadded(x)[k] < 128
  {
    if |x| > 3 && k >= 4 {
      UnpaddedInAlphabet(x[3..], k - 4);
    }
  }

  lemma {:induction false} DecodedUnpadded(x: seq<byte>)
    ensures Decoded(Unpadded(x)) == Body(x, true)
  {
    if 1 <= |x| <= 3 {
      QuadInverse(x);
    } else if |x| > 3 {
      QuadInverse(x[..3]);
      EncodeLength(x[3..]);
      UnpaddedInAlphabet(x, 0);
      DecodedUnpadded(x[3..]);
      var u := Unpadded(x);
      assert u[..4] == Quad(x[..3]) && u[4..] == Unpadded(x[3..]);
      assert x[..3] + x[3..] == x;
    }
  }

  lemma {:induction false} StripPadding(u: seq<byte>, pad: seq<byte>)
    requires forall k :: 0 <= k < |pad| ==> ValueOf(pad[k]) == -1
    ensures Strip(u + pad) == Strip(u)
    decreases |pad|
  {
    if pad == [] {
      assert u + pad == u;
    } else {
      assert (u + pad)[..|u + pad| - 1] == u + pad[..|pad| - 1];
      StripPadding(u, pad[..|pad| - 1]);
    }
  }

  lemma {:induction false} WrittenUnpadded(n: nat)
    ensures WrittenSize(UnpaddedSize(n)) == n
  {
    if n > 3 {
      WrittenUnpadded(n - 3);
      SizeStep(n);
    }
  }

  lemma UnpaddedIsAscii(x: seq<byte>)
    ensures Ascii(Unpadded(x))
  {
    forall k | 0 <= k < |Unpadded(x)| ensures Unpadded(x)[k] < 128 {
      UnpaddedInAlphabet(x, k);
    }
  }

  lemma UnpaddedStripped(x: seq<byte>, pad: seq<byte>, s: seq<byte>)
    requires (forall k :: 0 <= k < |pad| ==> ValueOf(pad[k]) == -1) && s == Unpadded(x) + pad
    ensures Strip(s) == Unpadded(x)
  {
    StripPadding(Unpadded(x), pad);
    if Unpadded(x) != [] {
      UnpaddedInAlphabet(x, |Unpadded(x)| - 1);
    }
  }

  lemma DecodesStripped(s: seq<byte>, u: seq<byte>, x: seq<byte>)
    requires Strip(s) == u && Ascii(s[|u|..]) && Safe(u, DecodingSize(|s|)) && Decoded(u) == Body(x, true)
    ensures Decodable(s) && Decode(s) == x
  {}

  lemma BehindPrefix(s: seq<byte>, u: seq<byte>, pad: seq<byte>)
    requires s == u + pad
    ensures s[|u|..] == pad && |s| == |u| + |pad|
  {}

  lemma UnpaddedSafe(x: seq<byte>, room: nat)
    requires |x| <= room
    ensures Safe(Unpadded(x), room)
  {
    UnpaddedLength(x);
    UnpaddedIsAscii(x);
    WrittenUnpadded(|x|);
    FitsIsSafe(Unpadded(x), room);
  }

  /** An unpadded encoding followed by at least enough ASCII characters outside the alphabet decodes to the octets. */
  lemma DecodesTo(x: seq<byte>, pad: seq<byte>, s: seq<byte>, room: nat)
    requires Ascii(pad) && (forall k :: 0 <= k < |pad| ==> ValueOf(pad[k]) == -1) && s == Unpadded(x) + pad
    requires |x| <= room == DecodingSize(|s|)
    ensures Decodable(s) && Decode(s) == x
  {
    UnpaddedStripped(x, pad, s);
    BehindPrefix(s, Unpadded(x), pad);
    UnpaddedSafe(x, room);
    DecodedUnpadded(x);
    DecodesStripped(s, Unpadded(x), x);
  }

  lemma PaddingFits(n: nat)
    ensures n <= DecodingSize(UnpaddedSize(n) + |Padding(n)|)
  {
    SizePadded(n);
  }

  lemma RoundTrip(x: seq<byte>)
    ensures Decodable(Encode(x)) && Decode(Encode(x)) == x
  {
    PaddingFits(|x|);
    UnpaddedLength(x);
    DecodesTo(x, Padding(|x|), Encode(x), DecodingSize(|Encode(x)|));
  }

  lemma EncodeInjective(x: seq<byte>, y: seq<byte>)
    requires Encode(x) == Encode(y)
    ensures x == y
  {
    RoundTrip(x);
    RoundTrip(y);
  }

  // ----- the URL-safe form

  function ToUri(c: byte): (d: byte) { if c == PLUS then DASH else if c == SLASH then UNDERSCORE else c }

  function FromUri(c: byte): (d: byte) { if c == DASH then PLUS else if c == UNDERSCORE then SLASH else c }

  /** Padding dropped, the two unsafe characters replaced. */
  function UriEncode(s: seq<byte>): (r: seq<byte>) {
    if s == [] then []
    else
      var last := s[|s| - 1];
      UriEncode(s[..|s| - 1]) + if last == PAD then [] else [ToUri(last)]
  }

  function UriRestore(s: seq<byte>): (r: seq<byte>)
    ensures |r| == |s|
  {
    seq(|s|, k requires 0 <= k < |s| => FromUri(s[k]))
  }

  function UriTrailer(n: nat): (t: nat)
    ensures t < 4 && (n + t) % 4 == 0
  {
    if n % 4 == 0 then 0 else 4 - n % 4
  }

  /** The padding and zeros behind the restored text. */
  function UriPad(n: nat): (r: seq<byte>)
    ensures |r| == 4 && Ascii(r) && forall k :: 0 <= k < 4 ==> ValueOf(r[k]) == -1
  {
    seq(UriTrailer(n), _ => PAD) + seq(4 - UriTrailer(n), _ => 0)
  }

  /** The buffer handed to the decoder: the characters restored, the padding, and zeros up to four extra octets. */
  function UriBuffer(s: seq<byte>): (r: seq<byte>) { UriRestore(s) + UriPad(|s|) }

  /** Rewrites the encoding inside its own buffer and returns the new length. */
  method Base64UriEncode(data: array<byte>) returns (j: nat)
    modifies data
    ensures j <= data.Length && data[..j] == UriEncode(old(data[..]))
  {
    ghost var s := data[..];
    var i := 0;
    j := 0;
    while i < data.Length
      invariant 0 <= j <= i <= data.Length
      invariant data[..j] == UriEncode(s[..i])
      invariant data[i..] == s[i..]
    {
      assert s[..i + 1][..i] == s[..i];
      assert data[i] == data[i..][0] == s[i];
      ghost var done, tail := data[..j], data[i..];
      if data[i] == PLUS {
        data[j] := DASH;
        j := j + 1;
      } else if data[i] == SLASH {
        data[j] := UNDERSCORE;
        j := j + 1;
      } else if data[i] != PAD {
        data[j] := data[i];
        j := j + 1;
      }
      assert data[i + 1..] == tail[1..];
      i := i + 1;
    }
    assert s[..i] == s;
  }

  lemma WrittenFits(n: nat, m: nat)
    requires n <= m
    ensures WrittenSize(n) <= DecodingSize(m + 4)
  {}

  /** With room for all that is left of it, text is decodable just if what is looked at is ASCII. */
  lemma DecodableByLook(s: seq<byte>, u: seq<byte>)
    requires Strip(s) == u && WrittenSize(|u|) <= DecodingSize(|s|)
    ensures Decodable(s) <==> Ascii(s[..LookedAt(u)]) && Ascii(s[|u|..])
  {
    FitsIsSafe(u, DecodingSize(|s|));
    assert s[..LookedAt(u)] == u[..LookedAt(u)];
  }

  lemma RestoreAscii(s: seq<byte>)
    ensures Ascii(UriRestore(s)) <==> Ascii(s)
  {
    assert forall k :: 0 <= k < |s| ==> (UriRestore(s)[k] < 128 <==> s[k] < 128);
  }

  lemma RestoreParts(data: seq<byte>, n: nat, k: nat)
    requires n <= |data| && k <= |data|
    ensures Ascii(UriRestore(data)[..n]) <==> Ascii(data[..n])
    ensures Ascii(UriRestore(data)[k..]) <==> Ascii(data[k..])
  {
    assert UriRestore(data)[..n] == UriRestore(data[..n]) && UriRestore(data)[k..] == UriRestore(data[k..]);
    RestoreAscii(data[..n]);
    RestoreAscii(data[k..]);
  }

  lemma PaddedAscii(d: seq<byte>, pad: seq<byte>, n: nat, k: nat)
    requires n <= |d| && k <= |d| && Ascii(pad)
    ensures Ascii((d + pad)[..n]) <==> Ascii(d[..n])
    ensures Ascii((d + pad)[k..]) <==> Ascii(d[k..])
  {
    assert (d + pad)[..n] == d[..n] && (d + pad)[k..] == d[k..] + pad;
    AsciiJoin(d[k..], pad);
  }

  /** The characters of the text that decoding looks at are ASCII: in front, and those dropped at the end. */
  predicate UriDecodable(data: seq<byte>) {
    var u := Strip(UriRestore(data));
    Ascii(data[..LookedAt(u)]) && Ascii(data[|u|..])
  }

  /**
   The four extra octets of the buffer make room for whatever is written, so only the characters decide whether
   the decoder stays in bounds.
   */
  lemma UriBufferDecodable(data: seq<byte>)
    ensures Decodable(UriBuffer(data)) <==> UriDecodable(data)
  {
    var d, pad := UriRestore(data), UriPad(|data|);
    var u := Strip(d);
    StripPadding(d, pad);
    WrittenFits(|u|, |data|);
    DecodableByLook(UriBuffer(data), u);
    PaddedAscii(d, pad, LookedAt(u), |u|);
    RestoreParts(data, LookedAt(u), |u|);
  }

  method Base64UriDecode(data: seq<byte>) returns (r: Option<seq<byte>>)
    ensures r == if Decodable(UriBuffer(data)) then Some(Decode(UriBuffer(data))) else None
    ensures r.Some? <==> UriDecodable(data)
  {
    UriBufferDecodable(data);
    var len := |data|;
    var dec := new byte[len + 4](_ => 0);
    var i := 0;
    while i < len
      invariant 0 <= i <= len
      invariant forall k :: 0 <= k < i ==> dec[k] == FromUri(data[k])
      invariant forall k :: i <= k < len + 4 ==> dec[k] == 0
    {
      dec[i] := if data[i] == DASH then PLUS else if data[i] == UNDERSCORE then SLASH else data[i];
      i := i + 1;
    }
    var trailer := 4 - i % 4;
    if trailer < 4 {
      while trailer > 0
        invariant 0 <= trailer && i + trailer == len + UriTrailer(len)
        invariant forall k :: 0 <= k < len ==> dec[k] == FromUri(data[k])
        invariant forall k :: len <= k < i ==> dec[k] == PAD
        invariant forall k :: i <= k < len + 4 ==> dec[k] == 0
        invariant len <= i
      {
        dec[i] := PAD;
        i, trailer := i + 1, trailer - 1;
      }
    }
    assert dec[..] == UriBuffer(data);
    r := Base64Decode(dec[..]);
  }

  lemma UriRestoresLast(front: seq<byte>, last: byte)
    requires ValueOf(last) != -1
    ensures UriRestore(UriEncode(front + [last])) == UriRestore(UriEncode(front)) + [last]
  {
    assert (front + [last])[..|front|] == front;
    assert FromUri(ToUri(last)) == last;
  }

  /** On an encoding the rewrite only drops the padding, and restoring it undoes the replacement. */
  lemma {:induction false} UriRestores(u: seq<byte>, pad: seq<byte>)
    requires forall k :: 0 <= k < |u| ==> ValueOf(u[k]) != -1
    requires forall k :: 0 <= k < |pad| ==> pad[k] == PAD
    ensures UriRestore(UriEncode(u + pad)) == u
    decreases |u| + |pad|
  {
    var s := u + pad;
    if pad != [] {
      assert s[..|s| - 1] == u + pad[..|pad| - 1];
      UriRestores(u, pad[..|pad| - 1]);
    } else if u != [] {
      var front, last := u[..|u| - 1], u[|u| - 1];
      assert s == u == front + [last] && front + [] == front;
      UriRestores(front, []);
      UriRestoresLast(front, last);
    }
  }

  lemma UriRestored(x: seq<byte>)
    ensures UriRestore(UriEncode(Encode(x))) == Unpadded(x) && |UriEncode(Encode(x))| == UnpaddedSize(|x|)
  {
    var u := Unpadded(x);
    forall k | 0 <= k < |u| ensures ValueOf(u[k]) != -1 { UnpaddedInAlphabet(x, k); }
    UriRestores(u, Padding(|x|));
    UnpaddedLength(x);
  }

  lemma UriFits(n: nat)
    ensures n <= DecodingSize(UnpaddedSize(n) + 4)
  {
    WrittenUnpadded(n);
    WrittenFits(UnpaddedSize(n), UnpaddedSize(n));
  }

  /**
   The URL-safe round trip: encode, rewrite in place, and decode what is left. The padding is rebuilt
   from the length, and the zeros behind it are stripped with it.
   */
  lemma UriRoundTrip(x: seq<byte>)
    ensures var s := UriEncode(Encode(x));
            Decodable(UriBuffer(s)) && Decode(UriBuffer(s)) == x
  {
    var s := UriEncode(Encode(x));
    UriRestored(x);
    UriFits(|x|);
    DecodesTo(x, UriPad(|s|), UriBuffer(s), DecodingSize(|UriBuffer(s)|));
  }

  /** Comparing encoded signatures compares the signatures. */
  lemma UriInjective(x: seq<byte>, y: seq<byte>)
    ensures UriEncode(Encode(x)) == UriEncode(Encode(y)) <==> x == y
  {
    UriRoundTrip(x);
    UriRoundTrip(y);
  }
}
