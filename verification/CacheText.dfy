/** Message ids and score set members of the event cache as text. */
module CacheText {
  import opened Wrappers

  // ----- integers of the host

  const TWO63: int := 0x8000_0000_0000_0000
  const TWO64: int := 0x1_0000_0000_0000_0000

  /** `unsigned long` and `unsigned long long`. */
  type ULong = n: nat | n < TWO64

  /** `long long`. */
  type LongLong = n: int | -TWO63 <= n < TWO63

  /** A sequence number: what `incr` gives, from zero on. */
  type SeqNo = n: nat | n < TWO63

  /** A number of 64 bits read as a signed one. */
  function Signed(n: ULong): (r: LongLong) { if n < TWO63 then n else n - TWO64 }

  // ----- decimal numbers

  predicate IsDigit(c: char) { '0' <= c <= '9' }

  function DigitOf(n: nat): (c: char)
    requires n < 10
    ensures IsDigit(c)
  {
    '0' + n as char
  }

  function ValueOf(c: char): (n: nat)
    requires IsDigit(c)
    ensures n < 10
  {
    (c - '0') as nat
  }

  predicate AllDigits(s: string) { forall k :: 0 <= k < |s| ==> IsDigit(s[k]) }

  function Dec(n: nat): (s: string)
    ensures s != "" && AllDigits(s)
  {
    if n < 10 then [DigitOf(n)] else Dec(n / 10) + [DigitOf(n % 10)]
  }

  /** The number a digit string stands for. */
  function Num(s: string): (n: nat)
    requires AllDigits(s)
  {
    if s == "" then 0 else Num(s[..|s| - 1]) * 10 + ValueOf(s[|s| - 1])
  }

  lemma {:induction false} NumDec(n: nat)
    ensures Num(Dec(n)) == n
  {
    if n >= 10 {
      NumDec(n / 10);
      assert Dec(n)[..|Dec(n)| - 1] == Dec(n / 10);
    } else {
      assert [DigitOf(n)][..0] == "";
    }
  }

  /** The digits in front. */
  function DigitPrefix(s: string): (k: nat)
    ensures k <= |s| && AllDigits(s[..k]) && (k < |s| ==> !IsDigit(s[k]))
  {
    if s == "" || !IsDigit(s[0]) then 0
    else
      var k := DigitPrefix(s[1..]);
      assert s[..k + 1] == [s[0]] + s[1..][..k];
      k + 1
  }

  predicate IsSpace(c: char) { c == ' ' || '\t' <= c <= '\r' }

  function SkipSpaces(s: string): (t: string)
    ensures t != "" ==> !IsSpace(t[0])
  {
    if s != "" && IsSpace(s[0]) then SkipSpaces(s[1..]) else s
  }

  predicate IsSign(c: char) { c == '+' || c == '-' }

  /**
   `stoul` and `stoull` in base ten: blanks, a sign and digits, of which there must be one; what follows is
   ignored. A number that does not fit is an error; a minus sign negates modulo 2^64.
   */
  function Stoull(s: string): (r: Option<ULong>) {
    var t := SkipSpaces(s);
    var d := if t != "" && IsSign(t[0]) then t[1..] else t;
    var k := DigitPrefix(d);
    if k == 0 || Num(d[..k]) >= TWO64 then None
    else if t[0] == '-' then Some((TWO64 - Num(d[..k])) % TWO64)
    else Some(Num(d[..k]))
  }

  lemma {:induction false} DigitPrefixIs(d: string, rest: string)
    requires AllDigits(d) && (rest != "" ==> !IsDigit(rest[0]))
    ensures DigitPrefix(d + rest) == |d|
  {
    if d == "" {
      assert d + rest == rest;
    } else {
      assert (d + rest)[1..] == d[1..] + rest;
      DigitPrefixIs(d[1..], rest);
    }
  }

  lemma {:induction false} SkipsBlanks(blanks: string, t: string)
    requires (forall k :: 0 <= k < |blanks| ==> IsSpace(blanks[k])) && (t != "" ==> !IsSpace(t[0]))
    ensures SkipSpaces(blanks + t) == t
  {
    if blanks == "" {
      assert blanks + t == t;
    } else {
      assert (blanks + t)[1..] == blanks[1..] + t;
      SkipsBlanks(blanks[1..], t);
    }
  }

  lemma ReadsDigits(n: nat, rest: string)
    requires rest != "" ==> !IsDigit(rest[0])
    ensures var d := Dec(n) + rest; DigitPrefix(d) > 0 && Num(d[..DigitPrefix(d)]) == n && IsDigit(d[0])
  {
    DigitPrefixIs(Dec(n), rest);
    assert (Dec(n) + rest)[..|Dec(n)|] == Dec(n);
    NumDec(n);
  }

  /** Once blanks are skipped, to `t`, and a sign, to `d`, the digits in front stand for `n`. */
  lemma StoullFrom(s: string, t: string, d: string, n: nat)
    requires SkipSpaces(s) == t && t != "" && d == (if IsSign(t[0]) then t[1..] else t)
    requires DigitPrefix(d) > 0 && Num(d[..DigitPrefix(d)]) == n
    ensures Stoull(s) == if n >= TWO64 then None else if t[0] == '-' && n > 0 then Some(TWO64 - n) else Some(n)
  {}

  lemma SignedText(sign: string, d: string)
    requires sign in ["", "+", "-"] && d != "" && IsDigit(d[0])
    ensures var t := sign + d;
            t[0] == (if sign == "" then d[0] else sign[0]) && d == if IsSign(t[0]) then t[1..] else t
  {}

  /** What is read of a number written out, with blanks and a sign in front and with any text behind. */
  lemma StoullReads(blanks: string, sign: string, n: nat, rest: string)
    requires forall k :: 0 <= k < |blanks| ==> IsSpace(blanks[k])
    requires sign in ["", "+", "-"] && (rest != "" ==> !IsDigit(rest[0]))
    ensures Stoull(blanks + (sign + (Dec(n) + rest))) ==
            if n >= TWO64 then None else if sign == "-" && n > 0 then Some(TWO64 - n) else Some(n)
  {
    var d := Dec(n) + rest;
    ReadsDigits(n, rest);
    SignedText(sign, d);
    SkipsBlanks(blanks, sign + d);
    StoullFrom(blanks + (sign + d), sign + d, d, n);
  }

  /** And what it fails on: no digit behind the blanks and the sign. */
  lemma StoullFails(blanks: string, sign: string, rest: string)
    requires forall k :: 0 <= k < |blanks| ==> IsSpace(blanks[k])
    requires sign in ["", "+", "-"] && (rest != "" ==> !IsDigit(rest[0]))
    requires sign == "" && rest != "" ==> !IsSpace(rest[0]) && rest[0] != '+' && rest[0] != '-'
    ensures Stoull(blanks + (sign + rest)) == None
  {
    var t := sign + rest;
    assert t != "" ==> t[0] == if sign == "" then rest[0] else sign[0];
    SkipsBlanks(blanks, t);
    assert sign == "" ==> t == rest;
    assert sign != "" ==> t[1..] == rest;
  }

  lemma StoullDec(n: ULong)
    ensures Stoull(Dec(n)) == Some(n)
  {
    var s := Dec(n);
    StoullReads("", "", n, "");
    assert s + "" == s && "" + s == s;
  }

  // ----- message ids

  /** A number written with its sign. */
  function DecInt(n: int): (s: string) { if n < 0 then "-" + Dec(-n) else Dec(n) }

  /** A message id is `<timestamp>-<sequence number>`. */
  function FormatId(ts: int, no: nat): (id: string) { DecInt(ts) + "-" + Dec(no) }

  function FindChar(s: string, c: char): (k: nat)
    ensures k <= |s| && c !in s[..k] && (k < |s| ==> s[k] == c)
  {
    if s == "" || s[0] == c then 0
    else
      var k := FindChar(s[1..], c);
      assert s[..k + 1] == [s[0]] + s[1..][..k];
      k + 1
  }

  lemma {:induction false} FindCharIs(l: string, c: char, rest: string)
    requires c !in l && (rest != "" ==> rest[0] == c)
    ensures FindChar(l + rest, c) == |l|
  {
    if l == "" {
      assert l + rest == rest;
    } else {
      assert (l + rest)[1..] == l[1..] + rest;
      FindCharIs(l[1..], c, rest);
    }
  }

  function SplitIdAndSeq(id: string): (r: Option<(LongLong, LongLong)>) {
    var h := FindChar(id, '-');
    if h == |id| || h == 0 then None
    else
      var ts, no := Stoull(id[..h]), Stoull(id[h + 1..]);
      if ts.None? || no.None? then None else Some((Signed(ts.value), Signed(no.value)))
  }

  lemma DigitsHaveNo(s: string, c: char)
    requires AllDigits(s) && !IsDigit(c)
    ensures c !in s
  {}

  lemma SplitsAt(a: string, b: string)
    requires a != "" && '-' !in a
    ensures var ts, no := Stoull(a), Stoull(b);
            SplitIdAndSeq(a + "-" + b) ==
            if ts.None? || no.None? then None else Some((Signed(ts.value), Signed(no.value)))
  {
    var id, h := a + "-" + b, |a|;
    assert id == a + ("-" + b);
    FindCharIs(a, '-', "-" + b);
    assert id[..h] == a && id[h + 1..] == b;
  }

  /** Every id comes apart into the numbers it was made of, unless its timestamp is negative. */
  lemma IdRoundTrip(ts: LongLong, no: SeqNo)
    ensures SplitIdAndSeq(FormatId(ts, no)) == if ts < 0 then None else Some((ts, no))
  {
    if ts < 0 {
      assert FormatId(ts, no)[0] == '-';
    } else {
      DigitsHaveNo(Dec(ts), '-');
      SplitsAt(Dec(ts), Dec(no));
      StoullDec(ts);
      StoullDec(no);
    }
  }

  lemma CutAtHyphen(a: string, b: string, s: string)
    requires '-' !in a && s == a + "-" + b
    ensures FindChar(s, '-') == |a| && s[..|a|] == a && s[|a| + 1..] == b
  {
    assert s == a + ("-" + b);
    FindCharIs(a, '-', "-" + b);
  }

  lemma NumbersApart(a: nat, b: nat, a': nat, b': nat, s: string)
    requires s == Dec(a) + "-" + Dec(b) == Dec(a') + "-" + Dec(b')
    ensures a == a' && b == b'
  {
    DigitsHaveNo(Dec(a), '-');
    DigitsHaveNo(Dec(a'), '-');
    CutAtHyphen(Dec(a), Dec(b), s);
    CutAtHyphen(Dec(a'), Dec(b'), s);
    NumDec(a);
    NumDec(a');
    NumDec(b);
    NumDec(b');
  }

  lemma FormatParts(ts: int, no: nat)
    ensures ts < 0 ==> FormatId(ts, no) == "-" + (Dec(-ts) + "-" + Dec(no))
    ensures FormatId(ts, no)[0] == '-' <==> ts < 0
  {
    assert FormatId(ts, no)[0] == DecInt(ts)[0];
    if ts >= 0 {
      assert IsDigit(Dec(ts)[0]);
    } else {
      assert "-" + Dec(-ts) + "-" + Dec(no) == "-" + (Dec(-ts) + "-" + Dec(no));
    }
  }

  /** Different ids have different texts, negative timestamps or not. */
  lemma FormatInjective(ts: int, no: nat, ts': int, no': nat)
    requires FormatId(ts, no) == FormatId(ts', no')
    ensures ts == ts' && no == no'
  {
    FormatParts(ts, no);
    FormatParts(ts', no');
    if ts < 0 {
      var s := FormatId(ts, no)[1..];
      assert s == Dec(-ts) + "-" + Dec(no) && s == Dec(-ts') + "-" + Dec(no');
      NumbersApart(-ts, no, -ts', no', s);
    } else {
      NumbersApart(ts, no, ts', no', FormatId(ts, no));
    }
  }

  // ----- score set members

  /** The id, the expiry time and the origin of a cached item. */
  datatype Meta = Meta(id: string, expireAt: ULong, origin: string)

  function ToStr(m: Meta): (s: string) {
    if m.origin == "" then m.id + ":" + Dec(m.expireAt) else m.id + ":" + Dec(m.expireAt) + ":" + m.origin
  }

  /** Field `j` of a string cut at its colons; fields past the last are empty. */
  function Field(s: string, j: nat): (r: string) {
    var k := FindChar(s, ':');
    if j == 0 then s[..k] else if k == |s| then "" else Field(s[k + 1..], j - 1)
  }

  function ParseMeta(s: string): (r: Option<Meta>) {
    if ':' !in s then None
    else
      var e := Stoull(Field(s, 1));
      if e.None? then None else Some(Meta(Field(s, 0), e.value, Field(s, 2)))
  }

  /** After `i` characters, `j` of them colons, `acc` is what has been collected of field `f`. */
  ghost predicate Collected(s: string, i: nat, j: nat, f: nat, acc: string)
    requires i <= |s|
  {
    Field(s, f) == acc + if j <= f then Field(s[i..], f - j) else ""
  }

  /** Field `f` once character `c` has been seen in field `j`. */
  function Push(f: nat, j: nat, acc: string, c: char): (r: string) {
    if c != ':' && j == f then acc + [c] else acc
  }

  lemma FieldStep(s: string, j: nat)
    requires s != ""
    ensures s[0] == ':' ==> Field(s, j) == if j == 0 then "" else Field(s[1..], j - 1)
    ensures s[0] != ':' ==> Field(s, j) == if j == 0 then [s[0]] + Field(s[1..], 0) else Field(s[1..], j)
  {
    var k := FindChar(s[1..], ':');
    if s[0] != ':' {
      assert FindChar(s, ':') == k + 1;
      assert s[..k + 1] == [s[0]] + s[1..][..k];
      if k < |s[1..]| {
        assert s[k + 2..] == s[1..][k + 1..];
      }
    }
  }

  lemma PushAppends(acc: string, c: char, rest: string)
    ensures acc + ([c] + rest) == acc + [c] + rest && acc + "" == acc
  {}

  lemma CollectStep(s: string, i: nat, j: nat, f: nat, acc: string)
    requires i < |s| && Collected(s, i, j, f, acc)
    ensures Collected(s, i + 1, if s[i] == ':' then j + 1 else j, f, Push(f, j, acc, s[i]))
  {
    if j <= f {
      var t := s[i..];
      FieldStep(t, f - j);
      assert t[0] == s[i] && t[1..] == s[i + 1..];
      PushAppends(acc, s[i], Field(t[1..], 0));
    }
  }

  lemma CollectEnd(s: string, j: nat, f: nat, acc: string)
    requires Collected(s, |s|, j, f, acc)
    ensures Field(s, f) == acc
  {
    assert s[|s|..] == "" && acc + "" == acc;
  }

  /** What the scan has after `i` characters: the colons seen and the three fields. */
  datatype Fields = Fields(colons: nat, id: string, expire: string, origin: string)

  function ScanTo(s: string, i: nat): (r: Fields)
    requires i <= |s|
  {
    if i == 0 then Fields(0, "", "", "")
    else
      var p, c := ScanTo(s, i - 1), s[i - 1];
      Fields(if c == ':' then p.colons + 1 else p.colons,
             Push(0, p.colons, p.id, c), Push(1, p.colons, p.expire, c), Push(2, p.colons, p.origin, c))
  }

  function FieldOf(p: Fields, f: nat): (r: string) { if f == 0 then p.id else if f == 1 then p.expire else p.origin }

  lemma ScanStep(s: string, i: nat, f: nat)
    requires 0 < i <= |s| && f < 3
    ensures var p, c := ScanTo(s, i - 1), s[i - 1];
            && ScanTo(s, i).colons == (if c == ':' then p.colons + 1 else p.colons)
            && FieldOf(ScanTo(s, i), f) == Push(f, p.colons, FieldOf(p, f), c)
  {}

  lemma CollectsOn(s: string, i: nat, f: nat, j: nat, acc: string, next: nat, more: string)
    requires 0 < i <= |s| && Collected(s, i - 1, j, f, acc)
    requires next == (if s[i - 1] == ':' then j + 1 else j) && more == Push(f, j, acc, s[i - 1])
    ensures Collected(s, i, next, f, more)
  {
    CollectStep(s, i - 1, j, f, acc);
  }

  lemma {:induction false} ScanCollects(s: string, i: nat, f: nat)
    requires i <= |s| && f < 3
    ensures Collected(s, i, ScanTo(s, i).colons, f, FieldOf(ScanTo(s, i), f))
  {
    if i == 0 {
      assert s[0..] == s && "" + Field(s, f) == Field(s, f);
    } else {
      ScanCollects(s, i - 1, f);
      ScanStep(s, i, f);
      var p, q := ScanTo(s, i - 1), ScanTo(s, i);
      CollectsOn(s, i, f, p.colons, FieldOf(p, f), q.colons, FieldOf(q, f));
    }
  }

  lemma {:induction false} ScanColons(s: string, i: nat)
    requires i <= |s|
    ensures ScanTo(s, i).colons > 0 <==> ':' in s[..i]
  {
    if i > 0 {
      ScanColons(s, i - 1);
      assert s[..i] == s[..i - 1] + [s[i - 1]];
    }
  }

  lemma ScanIsFields(s: string)
    ensures var p := ScanTo(s, |s|);
            (p.colons > 0 <==> ':' in s) && Field(s, 0) == p.id && Field(s, 1) == p.expire && Field(s, 2) == p.origin
  {
    var p := ScanTo(s, |s|);
    ScanColons(s, |s|);
    assert s[..|s|] == s;
    forall f: nat | f < 3 ensures Field(s, f) == FieldOf(p, f) {
      ScanCollects(s, |s|, f);
      CollectEnd(s, p.colons, f, FieldOf(p, f));
    }
  }

  /** The scan that takes a member apart, character by character. */
  method ExecParseMeta(s: string) returns (r: Option<Meta>)
    ensures r == ParseMeta(s)
  {
    var id, expire, origin := "", "", "";
    var i, j := 0, 0;
    while i < |s|
      invariant 0 <= i <= |s| && 0 <= j && ScanTo(s, i) == Fields(j, id, expire, origin)
    {
      if s[i] == ':' {
        j := j + 1;
      } else if j == 0 {
        id := id + [s[i]];
      } else if j == 1 {
        expire := expire + [s[i]];
      } else if j == 2 {
        origin := origin + [s[i]];
      }
      i := i + 1;
    }
    ScanIsFields(s);
    if j < 1 {
      return None;
    }
    var e := Stoull(expire);
    return if e.None? then None else Some(Meta(id, e.value, origin));
  }

  lemma FieldCut(l: string, rest: string, j: nat)
    requires ':' !in l
    ensures Field(l, 0) == l && (j > 0 ==> Field(l, j) == "")
    ensures Field(l + ":" + rest, 0) == l && (j > 0 ==> Field(l + ":" + rest, j) == Field(rest, j - 1))
  {
    FindCharIs(l, ':', "");
    assert l + "" == l;
    var s := l + ":" + rest;
    assert s == l + (":" + rest);
    FindCharIs(l, ':', ":" + rest);
    assert s[..|l|] == l && s[|l| + 1..] == rest;
  }

  lemma OriginField(s: string)
    ensures Field(s, 0) == s <==> ':' !in s
  {
    var k := FindChar(s, ':');
    assert s[..|s|] == s;
    assert ':' !in s ==> k == |s|;
  }

  lemma MetaFields(id: string, rest: string)
    requires ':' !in id
    ensures var s := id + ":" + rest;
            ':' in s && Field(s, 0) == id && Field(s, 1) == Field(rest, 0) && Field(s, 2) == Field(rest, 1)
  {
    FieldCut(id, rest, 1);
    FieldCut(id, rest, 2);
    assert (id + ":" + rest)[|id|] == ':';
  }

  /** What follows the id of a member. */
  function BehindId(e: string, origin: string): (r: string) { if origin == "" then e else e + ":" + origin }

  lemma MetaComesApart(id: string, e: string, origin: string)
    requires ':' !in id && ':' !in e
    ensures var s := id + ":" + BehindId(e, origin);
            ':' in s && Field(s, 0) == id && Field(s, 1) == e && Field(s, 2) == Field(origin, 0)
  {
    MetaFields(id, BehindId(e, origin));
    FieldCut(e, origin, 1);
  }

  lemma RegroupText(a: string, b: string, c: string)
    ensures a + ":" + b + ":" + c == a + ":" + (b + ":" + c)
  {}

  lemma MetaParts(id: string, e: string, origin: string)
    ensures (if origin == "" then id + ":" + e else id + ":" + e + ":" + origin) == id + ":" + BehindId(e, origin)
  {
    RegroupText(id, e, origin);
  }

  /** The id and the expiry time always survive; the origin does up to its first colon, so wholly iff it has none. */
  lemma MetaRoundTrip(m: Meta)
    requires ':' !in m.id
    ensures ParseMeta(ToStr(m)) == Some(Meta(m.id, m.expireAt, Field(m.origin, 0)))
    ensures ParseMeta(ToStr(m)) == Some(m) <==> ':' !in m.origin
  {
    OriginField(m.origin);
    MetaParts(m.id, Dec(m.expireAt), m.origin);
    DigitsHaveNo(Dec(m.expireAt), ':');
    MetaComesApart(m.id, Dec(m.expireAt), m.origin);
    StoullDec(m.expireAt);
  }
}
