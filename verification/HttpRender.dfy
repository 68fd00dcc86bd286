/** Requests as a client writes them, and the theorem that the parser reads back what was written. */
module HttpRender {
  import opened Bytes
  import opened HttpNames
  import opened HttpSyntax
  import opened HttpParser
  import opened Wrappers

  datatype Header = Header(name: Text, value: Text)

  /** Text for a method or a target: no controls, no space. */
  predicate IsWord(s: Text) { forall k :: 0 <= k < |s| ==> s[k] > 32 && s[k] != 127 }

  /** A header name: as for a token in front, then anything in ASCII but controls and the colon. */
  predicate IsName(s: Text) {
    s != [] && IsTokenChar(s[0]) && forall k :: 0 <= k < |s| ==> 32 <= s[k] < 128 && s[k] != Code(':')
  }

  /** A header value: no controls but tabs, and no blank in front. */
  predicate IsValue(s: Text) {
    && (s != [] ==> s[0] != Code(' ') && s[0] != Code('\t'))
    && forall k :: 0 <= k < |s| ==> (s[k] >= 32 || s[k] == Code('\t')) && s[k] != 127
  }

  function Line(h: Header): (r: Text) { h.name + Ascii(": ") + h.value + Ascii("\r\n") }

  function Lines(hs: seq<Header>): (r: Text) {
    if hs == [] then Ascii("\r\n") else Line(hs[0]) + Lines(hs[1..])
  }

  /** The minor version: one digit or more. */
  predicate IsNumber(s: Text) { s != [] && forall k :: 0 <= k < |s| ==> IsDigit(s[k]) }

  /** The number with `v` in front of the digits of `s`. */
  function NumberOf(s: Text, v: nat): (n: nat)
    requires forall k :: 0 <= k < |s| ==> IsDigit(s[k])
  {
    if s == [] then v
    else
      var last: int := s[|s| - 1];
      assert IsDigit(last);
      NumberOf(s[..|s| - 1], v) * 10 + (last - 48)
  }

  function Write(verb: Text, target: Text, minor: Text, hs: seq<Header>): (r: Text) {
    verb + Ascii(" ") + target + Ascii(" HTTP/1.") + minor + Ascii("\r\n") + Lines(hs)
  }

  const CRLF: Text := [CR, LF]

  lemma Codes()
    ensures Ascii(" ") == [SP] && Ascii(": ") == [COLON, SP] && Ascii("\r\n") == CRLF
    ensures Ascii(" HTTP/1.") == [SP] + HTTP1
  {
    var s := " HTTP/1.";
    assert s[0] == ' ' && s[1] == 'H' && s[2] == 'T' && s[3] == 'T' && s[4] == 'P' && s[5] == '/' && s[6] == '1' &&
        s[7] == '.';
  }

  /** The names and values of headers. */
  function Pairs(hs: seq<Header>): (r: seq<(Text, Text)>)
    ensures |r| == |hs|
  {
    seq(|hs|, k requires 0 <= k < |hs| => (hs[k].name, hs[k].value))
  }

  // ----- what the scanners find

  lemma {:induction false} TokenIs(b: Text, i: nat, k: nat)
    requires i <= k < |b| && b[k] == SP && IsWord(b[i..k])
    ensures Token(b, i) == At(k, ())
    decreases k - i
  {
    if i < k {
      assert b[i..k][0] == b[i] && b[i + 1..k] == b[i..k][1..];
      TokenIs(b, i + 1, k);
    }
  }

  lemma {:induction false} NameIs(b: Text, i: nat, k: nat)
    requires i <= k < |b| && b[k] == COLON && forall j :: i <= j < k ==> 32 <= b[j] < 128 && b[j] != COLON
    ensures Name(b, i) == At(k, ())
    decreases k - i
  {
    if i < k {
      NameIs(b, i + 1, k);
    }
  }

  lemma {:induction false} ToEolIs(b: Text, i: nat, k: nat)
    requires i <= k && k + 1 < |b| && b[k] == CR && b[k + 1] == LF && forall j :: i <= j < k ==> !IsControl(b[j])
    ensures ToEol(b, i) == At(k + 2, k)
    decreases k - i
  {
    if i < k {
      ToEolIs(b, i + 1, k);
    }
  }

  /** Where the parts of a header line are. */
  lemma PartsOf(t: Text, h: Header, rest: Text)
    requires t == Line(h) + rest
    ensures var n := |h.name|;
            var e := n + 2 + |h.value|;
            && |t| == e + 2 + |rest| && t[..n] == h.name && t[n + 2..e] == h.value && t[e + 2..] == rest
            && t[n] == COLON && t[n + 1] == SP && t[e] == CR && t[e + 1] == LF
  {
    Codes();
    assert t == h.name + [COLON, SP] + h.value + CRLF + rest;
  }

  lemma PartsAt(b: Text, i: nat, t: Text, n: nat, e: nat)
    requires i <= |b| && t == b[i..] && n + 2 <= e && e + 2 <= |t|
    ensures b[i..i + n] == t[..n] && b[i + n + 2..i + e] == t[n + 2..e] && b[i + e + 2..] == t[e + 2..]
    ensures b[i + n] == t[n] && b[i + n + 1] == t[n + 1] && b[i + e] == t[e] && b[i + e + 1] == t[e + 1]
  {}

  /** The same for the line at `i`. */
  lemma LineParts(b: Text, i: nat, h: Header, rest: Text)
    requires i < |b| && b[i..] == Line(h) + rest
    ensures var c, v := i + |h.name|, i + |h.name| + 2;
            var e := v + |h.value|;
            && e + 2 == |b| - |rest| && b[e + 2..] == rest
            && b[i..c] == h.name && b[v..e] == h.value
            && b[c] == COLON && b[c + 1] == SP && b[e] == CR && b[e + 1] == LF
  {
    PartsOf(b[i..], h, rest);
    PartsAt(b, i, b[i..], |h.name|, |h.name| + 2 + |h.value|);
  }

  lemma HeaderLineAt(b: Text, i: nat, n: nat, c: nat, v: nat, e: nat)
    requires i < |b| && n < MAX_HEADERS && IsTokenChar(b[i]) && !IsBlank(b[i])
    requires i <= c < |b| && Name(b, i) == At(c, ()) && v <= |b| && Blanks(b, c + 1) == At(v, ())
    requires v <= e && HeaderValue(b, i, c - i, v) == At(e + 2, HeaderRef(i, c - i, v, e - v))
    ensures HeaderLine(b, i, n) == At(e + 2, HeaderRef(i, c - i, v, e - v))
  {}

  lemma HeaderValueAt(b: Text, name: nat, nameLen: nat, v: nat, e: nat)
    requires v <= e && v <= |b| && ToEol(b, v) == At(e + 2, e)
    ensures HeaderValue(b, name, nameLen, v) == At(e + 2, HeaderRef(name, nameLen, v, e - v))
  {}

  lemma BlankIs(b: Text, i: nat)
    requires i + 1 < |b| && b[i] == SP && !IsBlank(b[i + 1])
    ensures Blanks(b, i) == At(i + 1, ())
  {
    assert Blanks(b, i) == Blanks(b, i + 1);
  }

  lemma HeaderLineFrom(b: Text, i: nat, n: nat, c: nat, v: nat, e: nat, name: Text, value: Text)
    requires i < c && v == c + 2 && v <= e && e + 1 < |b| && n < MAX_HEADERS && IsName(name) && IsValue(value)
    requires b[i..c] == name && b[v..e] == value && b[c] == COLON && b[c + 1] == SP && b[e] == CR && b[e + 1] == LF
    ensures HeaderLine(b, i, n) == At(e + 2, HeaderRef(i, c - i, v, e - v))
  {
    assert forall j :: i <= j < c ==> b[j] == name[j - i];
    assert forall j :: v <= j < e ==> b[j] == value[j - v];
    NameIs(b, i, c);
    BlankIs(b, c + 1);
    ToEolIs(b, v, e);
    HeaderValueAt(b, i, c - i, v, e);
    HeaderLineAt(b, i, n, c, v, e);
  }

  lemma HeaderLineIs(b: Text, i: nat, n: nat, h: Header, rest: Text)
    requires i < |b| && b[i..] == Line(h) + rest && IsName(h.name) && IsValue(h.value) && n < MAX_HEADERS
    ensures var v := i + |h.name| + 2;
            HeaderLine(b, i, n) == At(|b| - |rest|, HeaderRef(i, |h.name|, v, |h.value|))
  {
    LineParts(b, i, h, rest);
    var c, v := i + |h.name|, i + |h.name| + 2;
    HeaderLineFrom(b, i, n, c, v, v + |h.value|, h.name, h.value);
  }

  predicate Refers(b: Text, r: HeaderRef, h: Header) {
    && HeaderIn(b, r) && b[r.name..r.name + r.nameLen] == h.name && b[r.value..r.value + r.valueLen] == h.value
  }

  predicate ReferAll(b: Text, refs: seq<HeaderRef>, hs: seq<Header>) {
    && |refs| == |hs|
    && (forall k :: 0 <= k < |refs| ==> HeaderIn(b, refs[k]))
    && (forall k :: 0 <= k < |hs| ==> Refers(b, refs[k], hs[k]))
  }

  predicate GoodHeader(h: Header) { IsName(h.name) && IsValue(h.value) }

  predicate GoodHeaders(hs: seq<Header>) { forall k :: 0 <= k < |hs| ==> GoodHeader(hs[k]) }

  lemma ReferCons(b: Text, r: HeaderRef, refs: seq<HeaderRef>, hs: seq<Header>)
    requires hs != [] && Refers(b, r, hs[0]) && ReferAll(b, refs, hs[1..])
    ensures ReferAll(b, [r] + refs, hs)
  {
    var all := [r] + refs;
    forall k | 0 <= k < |hs| ensures Refers(b, all[k], hs[k]) && HeaderIn(b, all[k]) {
      if k > 0 {
        assert all[k] == refs[k - 1] && hs[k] == hs[1..][k - 1];
      }
    }
  }

  lemma HeadersAt(b: Text, i: nat, acc: seq<HeaderRef>, pos: nat, ref: HeaderRef)
    requires i < |b| && b[i] != CR && b[i] != LF && HeaderLine(b, i, |acc|) == At(pos, ref)
    ensures Headers(b, i, acc) == Headers(b, pos, acc + [ref])
  {}

  lemma LineRefers(b: Text, i: nat, h: Header, rest: Text, ref: HeaderRef)
    requires i < |b| && b[i..] == Line(h) + rest && IsName(h.name)
    requires ref == HeaderRef(i, |h.name|, i + |h.name| + 2, |h.value|)
    ensures Refers(b, ref, h) && |rest| < |b| - i && b[|b| - |rest|..] == rest && b[i] != CR && b[i] != LF
  {
    LineParts(b, i, h, rest);
    assert b[i] == b[i..i + |h.name|][0];
  }

  /** The header line at `i` as the scan finds it. */
  lemma LineAt(b: Text, i: nat, n: nat, h: Header, rest: Text) returns (ref: HeaderRef, pos: nat)
    requires i < |b| && b[i..] == Line(h) + rest && IsName(h.name) && IsValue(h.value) && n < MAX_HEADERS
    ensures pos == |b| - |rest| && b[pos..] == rest && b[i] != CR && b[i] != LF
    ensures HeaderLine(b, i, n) == At(pos, ref) && Refers(b, ref, h)
  {
    ref, pos := HeaderRef(i, |h.name|, i + |h.name| + 2, |h.value|), |b| - |rest|;
    LineRefers(b, i, h, rest, ref);
    HeaderLineIs(b, i, n, h, rest);
  }

  lemma {:induction false} HeadersAre(b: Text, i: nat, acc: seq<HeaderRef>, hs: seq<Header>)
    returns (refs: seq<HeaderRef>)
    requires i <= |b| && b[i..] == Lines(hs) && |acc| + |hs| <= MAX_HEADERS && GoodHeaders(hs)
    ensures Headers(b, i, acc) == At(|b|, acc + refs) && ReferAll(b, refs, hs)
    decreases |hs|
  {
    if hs == [] {
      assert b[i] == b[i..][0] == CR && b[i + 1] == b[i..][1] == LF;
      refs := [];
      assert acc + refs == acc;
    } else {
      var rest := Lines(hs[1..]);
      assert GoodHeader(hs[0]);
      var ref, pos := LineAt(b, i, |acc|, hs[0], rest);
      HeadersAt(b, i, acc, pos, ref);
      var tail := HeadersAre(b, pos, acc + [ref], hs[1..]);
      refs := [ref] + tail;
      Assoc(acc, [ref], tail);
      ReferCons(b, ref, tail, hs);
    }
  }

  lemma PairsAre(b: Text, refs: seq<HeaderRef>, hs: seq<Header>)
    requires ReferAll(b, refs, hs)
    ensures HeaderPairs(b, refs) == Pairs(hs)
  {
    forall k | 0 <= k < |hs| ensures HeaderPairs(b, refs)[k] == Pairs(hs)[k] {
      assert HeaderIn(b, refs[k]) && Refers(b, refs[k], hs[k]);
    }
  }

  lemma {:induction false} LiteralIs(b: Text, i: nat, word: Text, k: nat)
    requires k <= |word| && i + (|word| - k) <= |b| && b[i..i + (|word| - k)] == word[k..]
    ensures Literal(b, i, word, k) == At(i + (|word| - k), ())
    decreases |word| - k
  {
    if k < |word| {
      var s := b[i..i + (|word| - k)];
      assert s[0] == b[i] == word[k];
      assert b[i + 1..i + 1 + (|word| - k - 1)] == s[1..] == word[k + 1..];
      LiteralIs(b, i + 1, word, k + 1);
    }
  }

  lemma {:induction false} NumberOn(s: Text, v: nat)
    requires IsNumber(s)
    ensures NumberOf(s, v) == NumberOf(s[1..], v * 10 + s[0] - 48)
  {
    var t := s[1..];
    if t == [] {
      assert s[..0] == [];
    } else {
      NumberOn(s[..|s| - 1], v);
      assert t[..|t| - 1] == s[..|s| - 1][1..] && t[|t| - 1] == s[|s| - 1];
    }
  }

  lemma {:induction false} DigitsAre(b: Text, i: nat, k: nat, s: Text, v: nat)
    requires i <= k < |b| && !IsDigit(b[k]) && s == b[i..k] && (s != [] ==> IsNumber(s))
    ensures Digits(b, i, v) == At(k, NumberOf(s, v))
    decreases k - i
  {
    if i < k {
      assert b[i] == s[0] && b[i + 1..k] == s[1..];
      NumberOn(s, v);
      DigitsAre(b, i + 1, k, s[1..], v * 10 + b[i] - 48);
    }
  }

  lemma VersionParts(b: Text, i: nat, minor: Text, rest: Text)
    requires i <= |b| && b[i..] == HTTP1 + minor + rest
    ensures var n, k := i + |HTTP1|, |b| - |rest|;
            n + |minor| == k <= |b| && b[i..n] == HTTP1 && b[n..k] == minor && b[k..] == rest
  {
    var t, n, k := b[i..], i + |HTTP1|, |b| - |rest|;
    assert t[..|HTTP1|] == HTTP1 && t[|HTTP1|..|HTTP1| + |minor|] == minor && t[|HTTP1| + |minor|..] == rest;
    assert b[i..n] == t[..|HTTP1|] && b[n..k] == t[|HTTP1|..|HTTP1| + |minor|] && b[k..] == t[|HTTP1| + |minor|..];
  }

  lemma VersionIs(b: Text, i: nat, minor: Text, rest: Text)
    requires i <= |b| && b[i..] == HTTP1 + minor + rest && IsNumber(minor) && rest != [] && !IsDigit(rest[0])
    ensures Version(b, i) == At(|b| - |rest|, NumberOf(minor, 0)) && b[|b| - |rest|..] == rest
  {
    var n, k := i + |HTTP1|, |b| - |rest|;
    VersionParts(b, i, minor, rest);
    assert HTTP1[0..] == HTTP1 && b[k] == rest[0] && b[n] == minor[0];
    LiteralIs(b, i, HTTP1, 0);
    DigitsAre(b, n, k, minor, 0);
  }

  lemma TargetIs(b: Text, verb: Text, path: Text, rest: Text, i: nat, line: RequestRef)
    requires b == verb + [SP] + path + [SP] + rest && IsWord(verb) && IsWord(path)
    requires i == |verb| + |path| + 2 && line == RequestRef(0, |verb|, |verb| + 1, |path|, 0, [])
    ensures i <= |b| && Target(b) == At(i, line) && b[i..] == rest
    ensures b[line.method_..line.method_ + line.methodLen] == verb && b[line.path..line.path + line.pathLen] == path
  {
    var m, p := |verb|, |verb| + 1 + |path|;
    assert b[0..m] == verb && b[m + 1..p] == path;
    assert b[0] == if verb == [] then SP else verb[0];
    assert b[m] == SP && b[p] == SP;
    TokenIs(b, 0, m);
    TokenIs(b, m + 1, p);
  }

  lemma LineEndIs(b: Text, v: nat, rest: Text)
    requires v <= |b| && b[v..] == CRLF + rest
    ensures v + 2 <= |b| && LineEnd(b, v) == At(v + 2, ()) && b[v + 2..] == rest
  {
    var t := b[v..];
    assert b[v] == t[0] && b[v + 1] == t[1] && b[v + 2..] == t[2..];
  }

  lemma RestAt(b: Text, q: RequestRef, i: nat, v: nat, minor: nat, w: nat, refs: seq<HeaderRef>)
    requires i <= |b| && v < |b| && w <= |b| && Version(b, i) == At(v, minor) && LineEnd(b, v) == At(w, ())
    requires Headers(b, w, []) == At(|b|, refs)
    ensures RequestRest(b, q, i) == At(|b|, q.(minor := minor, headers := refs))
  {}

  lemma VersionLineIs(b: Text, i: nat, minor: Text, lines: Text) returns (v: nat)
    requires IsNumber(minor) && i <= |b| && b[i..] == HTTP1 + minor + (CRLF + lines)
    ensures v + 2 + |lines| == |b| && Version(b, i) == At(v, NumberOf(minor, 0)) && LineEnd(b, v) == At(v + 2, ())
  {
    var rest := CRLF + lines;
    VersionIs(b, i, minor, rest);
    v := |b| - |rest|;
    LineEndIs(b, v, lines);
  }

  /** The version line behind the target, and headers as `refs` behind that. */
  lemma RestIs(b: Text, q: RequestRef, i: nat, minor: Text, lines: Text, h: nat, refs: seq<HeaderRef>)
    requires IsNumber(minor) && i <= |b| && b[i..] == HTTP1 + minor + (CRLF + lines)
    requires h + |lines| == |b| && Headers(b, h, []) == At(|b|, refs)
    ensures RequestRest(b, q, i) == At(|b|, q.(minor := NumberOf(minor, 0), headers := refs))
  {
    var v := VersionLineIs(b, i, minor, lines);
    RestAt(b, q, i, v, NumberOf(minor, 0), h, refs);
  }

  function VersionLine(minor: Text): (r: Text) { HTTP1 + minor }

  lemma Reassociate(a: Text, b: Text, c: Text, d: Text, e: Text, f: Text)
    ensures a + (b + c) + d + e + f == a + b + (c + d + (e + f))
  {}

  lemma WriteParts(verb: Text, target: Text, minor: Text, hs: seq<Header>)
    ensures Write(verb, target, minor, hs) == verb + [SP] + target + [SP] + (VersionLine(minor) + (CRLF + Lines(hs)))
  {
    Codes();
    Reassociate(verb + [SP] + target, [SP], HTTP1, minor, CRLF, Lines(hs));
  }

  /** The query of a target: the parameters written, and a tail without an equals sign. */
  datatype QueryText = QueryText(params: seq<(Text, Text)>, tail: Text)

  /** A target as a client writes it. */
  function TargetOf(path: Text, query: Option<QueryText>): (r: Text) {
    TargetText(path, if query.None? then None else Some(Render(query.value.params, query.value.tail)))
  }

  /** `b` is accepted whole, as a request with this method, path, query, version and these headers. */
  ghost predicate ReadBack(b: Text, verb: Text, path: Text, query: Option<QueryText>, minor: nat, hs: seq<Header>) {
    var r := Request(b);
    && r.At? && r.pos == |b| && InBuffer(b, r.value) && r.value.minor == minor
    && var m := Interpret(b, r.value, EMPTY);
       && m.verb == verb && m.path == path
       && (query.None? ==> m.query == map[])
       && (query.Some? ==> Filed(query.value.params, m.query, true))
       && Filed(Pairs(hs), m.headers, false)
  }

  lemma RequestAt(b: Text, i: nat, line: RequestRef, minor: nat, refs: seq<HeaderRef>)
    requires i <= |b| && Target(b) == At(i, line)
    requires RequestRest(b, line, i) == At(|b|, line.(minor := minor, headers := refs))
    ensures Request(b) == At(|b|, line.(minor := minor, headers := refs))
    ensures InBuffer(b, line.(minor := minor, headers := refs))
  {
    assert Request(b) == RequestRest(b, line, i);
    RequestInBuffer(b);
  }

  lemma HeadersBehind(b: Text, i: nat, minor: Text, hs: seq<Header>) returns (h: nat, refs: seq<HeaderRef>)
    requires i <= |b| && b[i..] == VersionLine(minor) + (CRLF + Lines(hs)) && |hs| <= MAX_HEADERS && GoodHeaders(hs)
    ensures h + |Lines(hs)| == |b| && Headers(b, h, []) == At(|b|, refs) && ReferAll(b, refs, hs)
  {
    Assoc(VersionLine(minor), CRLF, Lines(hs));
    SuffixOfSuffix(b, i, VersionLine(minor) + CRLF, Lines(hs));
    h := |b| - |Lines(hs)|;
    refs := HeadersAre(b, h, [], hs);
    assert [] + refs == refs;
  }

  lemma RequestIs(b: Text, i: nat, line: RequestRef, minor: Text, hs: seq<Header>) returns (q: RequestRef)
    requires i <= |b| && Target(b) == At(i, line) && IsNumber(minor) && |hs| <= MAX_HEADERS && GoodHeaders(hs)
    requires b[i..] == VersionLine(minor) + (CRLF + Lines(hs))
    ensures Request(b) == At(|b|, q) && q == line.(minor := NumberOf(minor, 0), headers := q.headers)
    ensures InBuffer(b, q) && ReferAll(b, q.headers, hs)
  {
    var h, refs := HeadersBehind(b, i, minor, hs);
    RestIs(b, line, i, minor, Lines(hs), h, refs);
    RequestAt(b, i, line, NumberOf(minor, 0), refs);
    q := line.(minor := NumberOf(minor, 0), headers := refs);
  }

  predicate Located(b: Text, q: RequestRef, verb: Text, path: Text, hs: seq<Header>) {
    && InBuffer(b, q) && ReferAll(b, q.headers, hs)
    && b[q.method_..q.method_ + q.methodLen] == verb && b[q.path..q.path + q.pathLen] == path
  }

  /** The request is accepted whole, with the positions of its method, path and headers. */
  lemma RequestAccepted(b: Text, verb: Text, path: Text, minor: Text, hs: seq<Header>, rest: Text)
    returns (q: RequestRef)
    requires IsWord(verb) && IsWord(path) && IsNumber(minor) && |hs| <= MAX_HEADERS
    requires GoodHeaders(hs) && b == verb + [SP] + path + [SP] + rest && rest == VersionLine(minor) + (CRLF + Lines(hs))
    ensures Request(b) == At(|b|, q) && Located(b, q, verb, path, hs) && q.minor == NumberOf(minor, 0)
  {
    var i, line := |verb| + |path| + 2, RequestRef(0, |verb|, |verb| + 1, |path|, 0, []);
    TargetIs(b, verb, path, rest, i, line);
    q := RequestIs(b, i, line, minor, hs);
  }

  lemma QueryIs(path: Text, query: Option<QueryText>)
    requires Code('?') !in path && (query.Some? ==> GoodQuery(query.value.params, query.value.tail))
    ensures PathOf(TargetOf(path, query)) == path
    ensures query.None? ==> QueryOf(TargetOf(path, query), map[]) == map[]
    ensures query.Some? ==> Filed(query.value.params, QueryOf(TargetOf(path, query), map[]), true)
  {
    TargetComesApart(path, if query.None? then None else Some(Render(query.value.params, query.value.tail)), map[]);
    if query.Some? {
      QueryRoundTrip(query.value.params, query.value.tail);
    }
  }

  lemma InterpretIs(b: Text, q: RequestRef, verb: Text, target: Text, hs: seq<Header>)
    requires InBuffer(b, q) && ReferAll(b, q.headers, hs)
    requires b[q.method_..q.method_ + q.methodLen] == verb && b[q.path..q.path + q.pathLen] == target
    ensures var m := Interpret(b, q, EMPTY);
            && m.verb == verb && m.path == PathOf(target) && m.query == QueryOf(target, map[])
            && Filed(Pairs(hs), m.headers, false)
  {
    HeadersFiled(b, q.headers);
    PairsAre(b, q.headers, hs);
    assert verb + [] == verb;
  }

  lemma ReadBackOf(b: Text, q: RequestRef, verb: Text, path: Text, query: Option<QueryText>, hs: seq<Header>)
    requires Code('?') !in path && (query.Some? ==> GoodQuery(query.value.params, query.value.tail))
    requires Request(b) == At(|b|, q) && Located(b, q, verb, TargetOf(path, query), hs)
    ensures ReadBack(b, verb, path, query, q.minor, hs)
  {
    InterpretIs(b, q, verb, TargetOf(path, query), hs);
    QueryIs(path, query);
  }

  /**
   Every request of at most a hundred headers is accepted whole and read back: the method; the path, up to a
   question mark; of the parameters and of the headers the last value of a name in any case, under the name
   without capitals; and the minor version, of any number of digits.
   */
  lemma RequestRoundTrip(verb: Text, path: Text, query: Option<QueryText>, minor: Text, hs: seq<Header>)
    requires IsWord(verb) && Code('?') !in path && (query.Some? ==> GoodQuery(query.value.params, query.value.tail))
    requires IsWord(TargetOf(path, query)) && IsNumber(minor) && |hs| <= 100 && GoodHeaders(hs)
    ensures ReadBack(Write(verb, TargetOf(path, query), minor, hs), verb, path, query, NumberOf(minor, 0), hs)
  {
    var target, rest := TargetOf(path, query), VersionLine(minor) + (CRLF + Lines(hs));
    WriteParts(verb, target, minor, hs);
    var q := RequestAccepted(Write(verb, target, minor, hs), verb, target, minor, hs, rest);
    ReadBackOf(Write(verb, target, minor, hs), q, verb, path, query, hs);
  }
}
