/**
 The language of requests, by positions and octets: exactly which buffers start with a request and where its parts
 lie.
 */
module HttpGrammar {
  import opened Bytes
  import opened HttpSyntax
  import opened HttpLaws

  // ----- the grammar

  /** The line ends: LF or CR LF at `i`, `e` behind it. */
  predicate EolAt(b: seq<byte>, i: int, e: int) {
    || (0 <= i < e == i + 1 <= |b| && b[i] == 10)
    || (0 <= i < e == i + 2 <= |b| && b[i] == 13 && b[i + 1] == 10)
  }

  /** No controls and no space from `i` on, and a space at `k`. */
  predicate WordAt(b: seq<byte>, i: int, k: int) {
    0 <= i <= k < |b| && b[k] == 32 && forall j :: i <= j < k ==> b[j] > 32 && b[j] != 127
  }

  /** One digit or more from `i` on, and something else at `k`. */
  predicate NumberAt(b: seq<byte>, i: int, k: int) {
    0 <= i < k < |b| && !(48 <= b[k] <= 57) && forall j :: i <= j < k ==> 48 <= b[j] <= 57
  }

  /** No controls but tabs from `i` on, then the line ends at `k`. */
  predicate ValueAt(b: seq<byte>, i: int, k: int, e: int) {
    0 <= i <= k && EolAt(b, k, e) && forall j :: i <= j < k ==> (b[j] >= 32 || b[j] == 9) && b[j] != 127
  }

  /** ASCII without controls and colons from `i` on, and a colon at `k`. */
  predicate NameAt(b: seq<byte>, i: int, k: int) {
    0 <= i <= k < |b| && b[k] == 58 && forall j :: i <= j < k ==> 32 <= b[j] < 128 && b[j] != 58
  }

  /** Spaces and tabs from `i` on, and something else at `k`. */
  predicate BlanksAt(b: seq<byte>, i: int, k: int) {
    0 <= i <= k < |b| && b[k] != 32 && b[k] != 9 && forall j :: i <= j < k ==> b[j] == 32 || b[j] == 9
  }

  /** What a header name may start with: ASCII but controls, blanks and these separators. */
  predicate TokenStart(c: byte) { 32 < c < 127 && c as char !in "(),/:;<=>?@[\\]{}" }

  /** Header line `n` at `i`, `e` behind it: a name and a value, or, but for the first, a value behind a blank. */
  predicate HeaderAt(b: seq<byte>, i: int, n: int, h: HeaderRef, e: int) {
    && 0 <= i < |b| && ValueAt(b, h.value, h.value + h.valueLen, e) && h.name == i
    && if n > 0 && (b[i] == 32 || b[i] == 9) then h.nameLen == 0 && h.value == i
       else TokenStart(b[i]) && NameAt(b, i, i + h.nameLen) && BlanksAt(b, i + h.nameLen + 1, h.value)
  }

  /** Header lines from the `n`-th on, at most a hundred in all, and the empty line. */
  ghost predicate HeadersAt(b: seq<byte>, i: int, n: int, hs: seq<HeaderRef>, pos: int)
    decreases |hs|
  {
    if hs == [] then EolAt(b, i, pos)
    else n < 100 && exists e :: HeaderAt(b, i, n, hs[0], e) && HeadersAt(b, e, n + 1, hs[1..], pos)
  }

  // ----- the scanners find it

  lemma LineEndExactly(b: seq<byte>, i: nat, e: nat)
    requires i < |b|
    ensures LineEnd(b, i).At? && LineEnd(b, i).pos == e <==> EolAt(b, i, e)
  {}

  lemma {:induction false} TokenExactly(b: seq<byte>, i: nat, k: nat)
    requires i <= |b|
    ensures Token(b, i).At? && Token(b, i).pos == k <==> WordAt(b, i, k)
    decreases |b| - i
  {
    if i < |b| {
      TokenExactly(b, i + 1, k);
    }
  }

  lemma {:induction false} DigitsExactly(b: seq<byte>, i: nat, v: nat, k: nat)
    requires i < |b| && IsDigit(b[i])
    ensures Digits(b, i, v).At? && Digits(b, i, v).pos == k <==> NumberAt(b, i, k)
    decreases |b| - i
  {
    if i + 1 < |b| && IsDigit(b[i + 1]) {
      DigitsExactly(b, i + 1, v * 10 + b[i] - 48, k);
    } else if i + 1 < |b| {
      assert Digits(b, i, v) == Digits(b, i + 1, v * 10 + b[i] - 48);
    }
  }

  lemma NumberExactly(b: seq<byte>, i: nat, k: nat)
    requires i <= |b|
    ensures Number(b, i).At? && Number(b, i).pos == k <==> NumberAt(b, i, k)
  {
    if i < |b| && IsDigit(b[i]) {
      DigitsExactly(b, i, 0, k);
    }
  }

  lemma {:induction false} ToEolExactly(b: seq<byte>, i: nat, k: nat, e: nat)
    requires i <= |b|
    ensures ToEol(b, i) == At(e, k) <==> ValueAt(b, i, k, e)
    decreases |b| - i
  {
    if i < |b| {
      if IsControl(b[i]) {
        LineEndExactly(b, i, e);
      } else {
        ToEolExactly(b, i + 1, k, e);
      }
    }
  }

  lemma {:induction false} NameExactly(b: seq<byte>, i: nat, k: nat)
    requires i <= |b|
    ensures Name(b, i).At? && Name(b, i).pos == k <==> NameAt(b, i, k)
    decreases |b| - i
  {
    if i < |b| {
      NameExactly(b, i + 1, k);
    }
  }

  lemma {:induction false} BlanksExactly(b: seq<byte>, i: nat, k: nat)
    requires i <= |b|
    ensures Blanks(b, i).At? && Blanks(b, i).pos == k <==> BlanksAt(b, i, k)
    decreases |b| - i
  {
    if i < |b| {
      BlanksExactly(b, i + 1, k);
    }
  }

  lemma HeaderValueExactly(b: seq<byte>, i: nat, nameLen: nat, v: nat, h: HeaderRef, e: nat)
    requires v <= |b|
    ensures HeaderValue(b, i, nameLen, v) == At(e, h) <==>
            h.name == i && h.nameLen == nameLen && h.value == v && ValueAt(b, h.value, h.value + h.valueLen, e)
  {
    ToEolExactly(b, v, v + h.valueLen, e);
    assert h.value == v ==> h.value + h.valueLen == v + h.valueLen;
  }

  lemma TokenCharIs(c: byte)
    ensures IsTokenChar(c) <==> TokenStart(c)
  {}

  lemma NamedLineExactly(b: seq<byte>, i: nat, c: nat, v: nat, h: HeaderRef, e: nat)
    requires i <= c < |b| && Name(b, i).At? && Name(b, i).pos == c
    requires v <= |b| && Blanks(b, c + 1).At? && Blanks(b, c + 1).pos == v
    ensures HeaderValue(b, i, c - i, v) == At(e, h) <==>
            && h.name == i && NameAt(b, i, i + h.nameLen) && BlanksAt(b, i + h.nameLen + 1, h.value)
            && ValueAt(b, h.value, h.value + h.valueLen, e)
  {
    NameExactly(b, i, c);
    BlanksExactly(b, c + 1, v);
    HeaderValueExactly(b, i, c - i, v, h, e);
    if NameAt(b, i, i + h.nameLen) && BlanksAt(b, i + h.nameLen + 1, h.value) {
      NameExactly(b, i, i + h.nameLen);
      BlanksExactly(b, c + 1, h.value);
    }
  }

  lemma NoName(b: seq<byte>, i: nat, h: HeaderRef)
    requires i < |b| && (Name(b, i).At? ==> !Blanks(b, Name(b, i).pos + 1).At?)
    ensures !(NameAt(b, i, i + h.nameLen) && BlanksAt(b, i + h.nameLen + 1, h.value))
  {
    NameExactly(b, i, i + h.nameLen);
    if Name(b, i).At? {
      BlanksExactly(b, Name(b, i).pos + 1, h.value);
    }
  }

  lemma HeaderLineExactly(b: seq<byte>, i: nat, n: nat, h: HeaderRef, e: nat)
    requires i < |b|
    ensures HeaderLine(b, i, n) == At(e, h) <==> n != 100 && HeaderAt(b, i, n, h, e)
  {
    TokenCharIs(b[i]);
    if n != 0 && IsBlank(b[i]) {
      HeaderValueExactly(b, i, 0, i, h, e);
    } else if Name(b, i).At? && Blanks(b, Name(b, i).pos + 1).At? {
      NamedLineExactly(b, i, Name(b, i).pos, Blanks(b, Name(b, i).pos + 1).pos, h, e);
    } else {
      NoName(b, i, h);
    }
  }

  lemma HeadersCons(b: seq<byte>, i: int, n: int, h: HeaderRef, e: int, rest: seq<HeaderRef>, pos: int)
    requires n < 100 && HeaderAt(b, i, n, h, e) && HeadersAt(b, e, n + 1, rest, pos)
    ensures HeadersAt(b, i, n, [h] + rest, pos)
  {
    var hs := [h] + rest;
    assert hs[0] == h && hs[1..] == rest;
  }

  lemma HeadersStep(b: seq<byte>, i: nat, acc: seq<HeaderRef>)
    requires i < |b| && b[i] != CR && b[i] != LF && Headers(b, i, acc).At?
    ensures var h := HeaderLine(b, i, |acc|);
            && h.At? && |acc| != 100 && HeaderAt(b, i, |acc|, h.value, h.pos)
            && Headers(b, i, acc) == Headers(b, h.pos, acc + [h.value])
  {
    var h := HeaderLine(b, i, |acc|);
    HeaderLineExactly(b, i, |acc|, h.value, h.pos);
  }

  lemma {:induction false} HeadersSound(b: seq<byte>, i: nat, acc: seq<HeaderRef>) returns (hs: seq<HeaderRef>)
    requires i <= |b| && Headers(b, i, acc).At? && |acc| <= 100
    ensures Headers(b, i, acc).value == acc + hs && HeadersAt(b, i, |acc|, hs, Headers(b, i, acc).pos)
    decreases |b| - i
  {
    if b[i] == CR || b[i] == LF {
      hs := [];
      LineEndExactly(b, i, Headers(b, i, acc).pos);
      assert acc + [] == acc;
    } else {
      var h := HeaderLine(b, i, |acc|);
      HeadersStep(b, i, acc);
      var rest := HeadersSound(b, h.pos, acc + [h.value]);
      hs := [h.value] + rest;
      Assoc(acc, [h.value], rest);
      HeadersCons(b, i, |acc|, h.value, h.pos, rest, Headers(b, i, acc).pos);
    }
  }

  lemma {:induction false} HeadersComplete(b: seq<byte>, i: nat, acc: seq<HeaderRef>, hs: seq<HeaderRef>, pos: nat)
    requires i <= |b| && HeadersAt(b, i, |acc|, hs, pos)
    ensures Headers(b, i, acc) == At(pos, acc + hs)
    decreases |hs|
  {
    if hs == [] {
      LineEndExactly(b, i, pos);
      assert acc + [] == acc;
    } else {
      var e :| HeaderAt(b, i, |acc|, hs[0], e) && HeadersAt(b, e, |acc| + 1, hs[1..], pos);
      HeaderLineExactly(b, i, |acc|, hs[0], e);
      HeadersComplete(b, e, acc + [hs[0]], hs[1..], pos);
      assert acc + [hs[0]] + hs[1..] == acc + hs;
    }
  }

  // ----- requests

  /** The text `HTTP/1.` at `i`. */
  predicate ProtocolAt(b: seq<byte>, i: int) {
    && 0 <= i && i + 7 <= |b|
    && b[i] as char == 'H' && b[i + 1] as char == 'T' && b[i + 2] as char == 'T' && b[i + 3] as char == 'P'
    && b[i + 4] as char == '/' && b[i + 5] as char == '1' && b[i + 6] as char == '.'
  }

  /** A request begins at `m`: at the start, or behind one empty line. */
  predicate StartAt(b: seq<byte>, m: int) { EolAt(b, 0, m) || (m == 0 < |b| && b[0] != 13 && b[0] != 10) }

  /** The version number from `i` to `v`, the end of its line, and the headers from `h` on. */
  ghost predicate RestAt(b: seq<byte>, i: int, v: int, h: int, hs: seq<HeaderRef>, pos: int) {
    ProtocolAt(b, i) && NumberAt(b, i + 7, v) && EolAt(b, v, h) && HeadersAt(b, h, 0, hs, pos)
  }

  ghost predicate VersionAndHeadersAt(b: seq<byte>, i: int, hs: seq<HeaderRef>, pos: int) {
    exists v, h :: RestAt(b, i, v, h, hs, pos)
  }

  /** Method and path are words, one space apart. */
  predicate TargetAt(b: seq<byte>, method_: int, methodLen: int, path: int, pathLen: int) {
    && StartAt(b, method_) && WordAt(b, method_, method_ + methodLen)
    && path == method_ + methodLen + 1 && WordAt(b, path, path + pathLen)
  }

  /** The method and the path, and behind them the version line and the headers. */
  ghost predicate IsRequest(b: seq<byte>, q: RequestRef, pos: int) {
    && TargetAt(b, q.method_, q.methodLen, q.path, q.pathLen)
    && VersionAndHeadersAt(b, q.path + q.pathLen + 1, q.headers, pos)
  }

  lemma {:induction false} LiteralFrom(b: seq<byte>, i: nat, word: seq<byte>, k: nat)
    requires i <= |b| && k <= |word|
    ensures Literal(b, i, word, k).At? <==>
            i + |word| - k <= |b| && forall j :: k <= j < |word| ==> b[i + j - k] == word[j]
    decreases |word| - k
  {
    if k < |word| && i < |b| && b[i] == word[k] {
      LiteralFrom(b, i + 1, word, k + 1);
    }
  }

  lemma LiteralExactly(b: seq<byte>, i: nat)
    requires i <= |b|
    ensures Literal(b, i, HTTP1, 0) == At(i + 7, ()) <==> ProtocolAt(b, i)
    ensures Literal(b, i, HTTP1, 0).At? ==> Literal(b, i, HTTP1, 0).pos == i + 7
  {
    LiteralFrom(b, i, HTTP1, 0);
  }

  lemma StartExactly(b: seq<byte>, m: nat)
    ensures LeadingLine(b).At? && LeadingLine(b).pos == m <==> StartAt(b, m)
  {
    if b != [] {
      LineEndExactly(b, 0, m);
    }
  }

  lemma TargetSound(b: seq<byte>)
    requires Target(b).At?
    ensures var q := Target(b).value;
            TargetAt(b, q.method_, q.methodLen, q.path, q.pathLen) && Target(b).pos == q.path + q.pathLen + 1
  {
    var m := LeadingLine(b);
    StartExactly(b, m.pos);
    var k := Token(b, m.pos);
    TokenExactly(b, m.pos, k.pos);
    TokenExactly(b, k.pos + 1, Token(b, k.pos + 1).pos);
  }

  lemma TargetComplete(b: seq<byte>, m: nat, mLen: nat, p: nat, pLen: nat)
    requires TargetAt(b, m, mLen, p, pLen)
    ensures Target(b) == At(p + pLen + 1, RequestRef(m, mLen, p, pLen, 0, []))
  {
    StartExactly(b, m);
    TokenExactly(b, m, m + mLen);
    TokenExactly(b, p, p + pLen);
  }

  lemma VersionSound(b: seq<byte>, i: nat)
    requires i <= |b| && Version(b, i).At?
    ensures ProtocolAt(b, i) && NumberAt(b, i + 7, Version(b, i).pos)
  {
    LiteralExactly(b, i);
    NumberExactly(b, i + 7, Version(b, i).pos);
  }

  lemma RestSound(b: seq<byte>, q: RequestRef, i: nat)
    requires i <= |b| && RequestRest(b, q, i).At?
    ensures var r := RequestRest(b, q, i);
            && VersionAndHeadersAt(b, i, r.value.headers, r.pos)
            && r.value == q.(minor := r.value.minor, headers := r.value.headers)
  {
    var v := Version(b, i).pos;
    var h := LineEnd(b, v).pos;
    VersionSound(b, i);
    LineEndExactly(b, v, h);
    var hs := HeadersSound(b, h, []);
    assert [] + hs == hs;
    assert RestAt(b, i, v, h, hs, Headers(b, h, []).pos);
  }

  lemma RestComplete(b: seq<byte>, q: RequestRef, i: nat, hs: seq<HeaderRef>, pos: nat)
    requires VersionAndHeadersAt(b, i, hs, pos)
    ensures i <= |b| && RequestRest(b, q, i).At? && RequestRest(b, q, i).pos == pos
    ensures RequestRest(b, q, i).value == q.(minor := RequestRest(b, q, i).value.minor, headers := hs)
  {
    var v, h :| RestAt(b, i, v, h, hs, pos);
    LiteralExactly(b, i);
    NumberExactly(b, i + 7, v);
    LineEndExactly(b, v, h);
    HeadersComplete(b, h, [], hs, pos);
    assert [] + hs == hs;
  }

  lemma RequestIs(b: seq<byte>, q: RequestRef, i: nat)
    requires Target(b) == At(i, q) && i <= |b|
    ensures Request(b) == RequestRest(b, q, i)
  {}

  lemma IsRequestFrom(b: seq<byte>, t: RequestRef, q: RequestRef, i: int, pos: int)
    requires TargetAt(b, t.method_, t.methodLen, t.path, t.pathLen) && i == t.path + t.pathLen + 1
    requires q == t.(minor := q.minor, headers := q.headers) && VersionAndHeadersAt(b, i, q.headers, pos)
    ensures IsRequest(b, q, pos)
  {}

  lemma RequestSound(b: seq<byte>)
    requires Request(b).At?
    ensures IsRequest(b, Request(b).value, Request(b).pos)
  {
    var t, r := Target(b), Request(b);
    RequestIs(b, t.value, t.pos);
    TargetSound(b);
    RestSound(b, t.value, t.pos);
    IsRequestFrom(b, t.value, r.value, t.pos, r.pos);
  }

  lemma VersionLeftOpen(b: seq<byte>, q: RequestRef, minor: nat, pos: int)
    ensures IsRequest(b, q, pos) <==> IsRequest(b, q.(minor := minor), pos)
  {}

  lemma RequestComplete(b: seq<byte>, q: RequestRef, pos: nat)
    requires IsRequest(b, q, pos)
    ensures Request(b).At? && Request(b).pos == pos && q == Request(b).value.(minor := q.minor)
  {
    var t, i := RequestRef(q.method_, q.methodLen, q.path, q.pathLen, 0, []), q.path + q.pathLen + 1;
    TargetComplete(b, q.method_, q.methodLen, q.path, q.pathLen);
    RestComplete(b, t, i, q.headers, pos);
    RequestIs(b, t, i);
  }

  /**
   The accepted language: a buffer starts with a request that ends before `pos`, its parts where `q` says, if and
   only if the grammar says so. (The minor version, which nothing reads, is left open.)
   */
  lemma RequestExactly(b: seq<byte>, q: RequestRef, pos: nat)
    ensures IsRequest(b, q, pos) <==>
            Request(b).At? && Request(b).pos == pos && q == Request(b).value.(minor := q.minor)
  {
    if Request(b).At? {
      RequestSound(b);
      VersionLeftOpen(b, Request(b).value, q.minor, Request(b).pos);
    }
    if IsRequest(b, q, pos) {
      RequestComplete(b, q, pos);
    }
  }
}
