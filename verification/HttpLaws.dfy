/**
 Laws of the request scanners: a verdict on a prefix is the verdict on the whole, an accepted request
 has no lone CR and ends in an empty line, and from these exactly when the completeness shortcut changes
 a result: it can only put a refusal off.
 */
module HttpLaws {
  import opened Bytes
  import opened HttpSyntax

  // ----- more input never changes a verdict

  /**
   The result on less input: not yet known, or already the same. It is the same if what was read ends within
   the first `n` octets.
   */
  predicate Settled<T(==)>(less: Scan<T>, more: Scan<T>, n: int) {
    (less.Partial? || less == more) && (more.At? && more.pos <= n ==> less == more)
  }

  lemma LineEndExtends(a: seq<byte>, b: seq<byte>, i: nat)
    requires a <= b && i < |a|
    ensures Settled(LineEnd(a, i), LineEnd(b, i), |a|)
  {}

  lemma {:induction false} TokenExtends(a: seq<byte>, b: seq<byte>, i: nat)
    requires a <= b && i <= |a|
    ensures Settled(Token(a, i), Token(b, i), |a| - 1)
    decreases |a| - i
  {
    if i < |a| {
      TokenExtends(a, b, i + 1);
    }
  }

  lemma {:induction false} ToEolExtends(a: seq<byte>, b: seq<byte>, i: nat)
    requires a <= b && i <= |a|
    ensures Settled(ToEol(a, i), ToEol(b, i), |a|)
    decreases |a| - i
  {
    if i < |a| {
      LineEndExtends(a, b, i);
      ToEolExtends(a, b, i + 1);
    }
  }

  lemma {:induction false} DigitsExtends(a: seq<byte>, b: seq<byte>, i: nat, v: nat)
    requires a <= b && i <= |a|
    ensures Settled(Digits(a, i, v), Digits(b, i, v), |a| - 1)
    decreases |a| - i
  {
    if i < |a| && IsDigit(a[i]) {
      DigitsExtends(a, b, i + 1, v * 10 + a[i] - 48);
    }
  }

  lemma {:induction false} LiteralExtends(a: seq<byte>, b: seq<byte>, i: nat, word: seq<byte>, k: nat)
    requires a <= b && i <= |a| && k <= |word|
    ensures Settled(Literal(a, i, word, k), Literal(b, i, word, k), |a|)
    decreases |word| - k
  {
    if k < |word| && i < |a| {
      LiteralExtends(a, b, i + 1, word, k + 1);
    }
  }

  lemma VersionExtends(a: seq<byte>, b: seq<byte>, i: nat)
    requires a <= b && i <= |a|
    ensures Settled(Version(a, i), Version(b, i), |a| - 1)
  {
    LiteralExtends(a, b, i, HTTP1, 0);
    var r := Literal(a, i, HTTP1, 0);
    if r.At? && r.pos < |a| {
      DigitsExtends(a, b, r.pos, 0);
    }
  }

  lemma {:induction false} NameExtends(a: seq<byte>, b: seq<byte>, i: nat)
    requires a <= b && i <= |a|
    ensures Settled(Name(a, i), Name(b, i), |a| - 1)
    decreases |a| - i
  {
    if i < |a| {
      NameExtends(a, b, i + 1);
    }
  }

  lemma {:induction false} BlanksExtends(a: seq<byte>, b: seq<byte>, i: nat)
    requires a <= b && i <= |a|
    ensures Settled(Blanks(a, i), Blanks(b, i), |a| - 1)
    decreases |a| - i
  {
    if i < |a| {
      BlanksExtends(a, b, i + 1);
    }
  }

  lemma HeaderValueExtends(a: seq<byte>, b: seq<byte>, name: nat, nameLen: nat, i: nat)
    requires a <= b && i <= |a|
    ensures Settled(HeaderValue(a, name, nameLen, i), HeaderValue(b, name, nameLen, i), |a|)
  {
    ToEolExtends(a, b, i);
  }

  lemma HeaderLineExtends(a: seq<byte>, b: seq<byte>, i: nat, n: nat)
    requires a <= b && i < |a|
    ensures Settled(HeaderLine(a, i, n), HeaderLine(b, i, n), |a|)
  {
    HeaderValueExtends(a, b, i, 0, i);
    NameExtends(a, b, i);
    var name := Name(a, i);
    if name.At? {
      BlanksExtends(a, b, name.pos + 1);
      var blanks := Blanks(a, name.pos + 1);
      if blanks.At? {
        HeaderValueExtends(a, b, i, name.pos - i, blanks.pos);
      }
    }
  }

  lemma {:induction false} HeadersExtends(a: seq<byte>, b: seq<byte>, i: nat, acc: seq<HeaderRef>)
    requires a <= b && i <= |a|
    ensures Settled(Headers(a, i, acc), Headers(b, i, acc), |a|)
    decreases |a| - i
  {
    if i < |a| {
      if a[i] == CR || a[i] == LF {
        LineEndExtends(a, b, i);
      } else {
        HeaderLineExtends(a, b, i, |acc|);
        var h := HeaderLine(a, i, |acc|);
        if h.At? {
          HeadersExtends(a, b, h.pos, acc + [h.value]);
        }
      }
    }
  }

  lemma TargetExtends(a: seq<byte>, b: seq<byte>)
    requires a <= b
    ensures Settled(Target(a), Target(b), |a|)
  {
    if a != [] {
      LineEndExtends(a, b, 0);
      var lead := LeadingLine(a);
      if lead.At? {
        TokenExtends(a, b, lead.pos);
        var m := Token(a, lead.pos);
        if m.At? {
          TokenExtends(a, b, m.pos + 1);
        }
      }
    }
  }

  lemma RequestRestExtends(a: seq<byte>, b: seq<byte>, q: RequestRef, i: nat)
    requires a <= b && i <= |a|
    ensures Settled(RequestRest(a, q, i), RequestRest(b, q, i), |a|)
  {
    VersionExtends(a, b, i);
    var v := Version(a, i);
    if v.At? {
      LineEndExtends(a, b, v.pos);
      var e := LineEnd(a, v.pos);
      if e.At? {
        HeadersExtends(a, b, e.pos, []);
      }
    }
  }

  /** Once a prefix is accepted or refused, so is everything that starts with it, and in the same way. */
  lemma RequestExtends(a: seq<byte>, b: seq<byte>)
    requires a <= b
    ensures Settled(Request(a), Request(b), |a|)
  {
    TargetExtends(a, b);
    var t := Target(a);
    if t.At? {
      RequestRestExtends(a, b, t.value, t.pos);
    }
  }

  // ----- what has been read of a request

  /** From `i` to `j`, every CR is followed by its LF. */
  predicate NoLoneCR(b: seq<byte>, i: nat, j: nat) {
    && i <= j <= |b|
    && forall k :: i <= k < j && b[k] == CR ==> k + 1 < j && b[k + 1] == LF
  }

  /** From `i` on, every CR with an octet behind it is followed by its LF. */
  predicate CRsPaired(b: seq<byte>, i: nat) { forall k :: i <= k < |b| - 1 && b[k] == CR ==> b[k + 1] == LF }

  /** A scan from `i` passes no lone CR: up to its end if it succeeds, anywhere if it runs out of input. */
  predicate PassesNoCR<T>(b: seq<byte>, i: nat, r: Scan<T>, behind: nat) {
    (r.At? ==> NoLoneCR(b, i, r.pos + behind)) && (r.Partial? ==> CRsPaired(b, i))
  }

  lemma {:induction false} TokenNoCR(b: seq<byte>, i: nat)
    requires i <= |b|
    ensures PassesNoCR(b, i, Token(b, i), 1)
    decreases |b| - i
  {
    if i < |b| && b[i] != SP {
      TokenNoCR(b, i + 1);
    }
  }

  lemma LineEndNoCR(b: seq<byte>, i: nat)
    requires i < |b|
    ensures PassesNoCR(b, i, LineEnd(b, i), 0) && (LineEnd(b, i).At? ==> b[LineEnd(b, i).pos - 1] == LF)
  {}

  lemma {:induction false} ToEolNoCR(b: seq<byte>, i: nat)
    requires i <= |b|
    ensures PassesNoCR(b, i, ToEol(b, i), 0) && (ToEol(b, i).At? ==> b[ToEol(b, i).pos - 1] == LF)
    decreases |b| - i
  {
    if i < |b| && !IsControl(b[i]) {
      ToEolNoCR(b, i + 1);
    }
  }

  lemma {:induction false} DigitsNoCR(b: seq<byte>, i: nat, v: nat)
    requires i <= |b|
    ensures PassesNoCR(b, i, Digits(b, i, v), 0)
    decreases |b| - i
  {
    if i < |b| && IsDigit(b[i]) {
      DigitsNoCR(b, i + 1, v * 10 + b[i] - 48);
    }
  }

  lemma {:induction false} LiteralNoCR(b: seq<byte>, i: nat, word: seq<byte>, k: nat)
    requires i <= |b| && k <= |word| && CR !in word
    ensures PassesNoCR(b, i, Literal(b, i, word, k), 0)
    decreases |word| - k
  {
    if k < |word| && i < |b| {
      LiteralNoCR(b, i + 1, word, k + 1);
    }
  }

  lemma {:induction false} NameNoCR(b: seq<byte>, i: nat)
    requires i <= |b|
    ensures PassesNoCR(b, i, Name(b, i), 1)
    decreases |b| - i
  {
    if i < |b| && b[i] != COLON {
      NameNoCR(b, i + 1);
    }
  }

  lemma {:induction false} BlanksNoCR(b: seq<byte>, i: nat)
    requires i <= |b|
    ensures PassesNoCR(b, i, Blanks(b, i), 0)
    decreases |b| - i
  {
    if i < |b| && IsBlank(b[i]) {
      BlanksNoCR(b, i + 1);
    }
  }

  lemma JoinNoCR<T>(b: seq<byte>, i: nat, j: nat, r: Scan<T>, behind: nat)
    requires NoLoneCR(b, i, j) && PassesNoCR(b, j, r, behind)
    ensures PassesNoCR(b, i, r, behind)
  {}

  lemma HeaderValueNoCR(b: seq<byte>, name: nat, nameLen: nat, i: nat)
    requires i <= |b|
    ensures var r := HeaderValue(b, name, nameLen, i); PassesNoCR(b, i, r, 0) && (r.At? ==> b[r.pos - 1] == LF)
  {
    ToEolNoCR(b, i);
  }

  lemma BehindNameNoCR(b: seq<byte>, i: nat)
    requires i < |b| && Name(b, i).At?
    ensures PassesNoCR(b, i, Blanks(b, Name(b, i).pos + 1), 0)
  {
    var name := Name(b, i);
    NameNoCR(b, i);
    BlanksNoCR(b, name.pos + 1);
    JoinNoCR(b, i, name.pos + 1, Blanks(b, name.pos + 1), 0);
  }

  lemma NamedLineNoCR(b: seq<byte>, i: nat)
    requires i < |b| && Name(b, i).At? && Blanks(b, Name(b, i).pos + 1).At?
    ensures var name := Name(b, i).pos;
            var r := HeaderValue(b, i, name - i, Blanks(b, name + 1).pos);
            PassesNoCR(b, i, r, 0) && (r.At? ==> b[r.pos - 1] == LF)
  {
    var name := Name(b, i).pos;
    var value := Blanks(b, name + 1).pos;
    BehindNameNoCR(b, i);
    HeaderValueNoCR(b, i, name - i, value);
    JoinNoCR(b, i, value, HeaderValue(b, i, name - i, value), 0);
  }

  lemma HeaderLineNoCR(b: seq<byte>, i: nat, n: nat)
    requires i < |b|
    ensures var r := HeaderLine(b, i, n); PassesNoCR(b, i, r, 0) && (r.At? ==> b[r.pos - 1] == LF)
  {
    if n != 0 && IsBlank(b[i]) {
      HeaderValueNoCR(b, i, 0, i);
    } else {
      NameNoCR(b, i);
      if Name(b, i).At? {
        BehindNameNoCR(b, i);
        if Blanks(b, Name(b, i).pos + 1).At? {
          NamedLineNoCR(b, i);
        }
      }
    }
  }

  /** The buffer up to `j` ends in LF LF or LF CR LF. */
  predicate EndsBlank(b: seq<byte>, j: nat) {
    && 3 <= j <= |b| && b[j - 1] == LF
    && (b[j - 2] == LF || (b[j - 2] == CR && b[j - 3] == LF))
  }

  lemma {:induction false} HeadersEnd(b: seq<byte>, i: nat, acc: seq<HeaderRef>)
    requires 2 <= i <= |b| && b[i - 1] == LF
    ensures PassesNoCR(b, i, Headers(b, i, acc), 0)
    ensures Headers(b, i, acc).At? ==> EndsBlank(b, Headers(b, i, acc).pos)
    decreases |b| - i
  {
    if i < |b| {
      if b[i] == CR || b[i] == LF {
        LineEndNoCR(b, i);
      } else {
        HeaderLineNoCR(b, i, |acc|);
        var h := HeaderLine(b, i, |acc|);
        if h.At? {
          HeadersEnd(b, h.pos, acc + [h.value]);
          JoinNoCR(b, i, h.pos, Headers(b, h.pos, acc + [h.value]), 0);
        }
      }
    }
  }

  lemma TargetNoCR(b: seq<byte>)
    ensures PassesNoCR(b, 0, Target(b), 0)
  {
    if b != [] {
      LineEndNoCR(b, 0);
      var lead := LeadingLine(b);
      if lead.At? {
        TokenNoCR(b, lead.pos);
        var m := Token(b, lead.pos);
        JoinNoCR(b, 0, lead.pos, m, 1);
        if m.At? {
          TokenNoCR(b, m.pos + 1);
          JoinNoCR(b, 0, m.pos + 1, Token(b, m.pos + 1), 1);
        }
      }
    }
  }

  lemma VersionNoCR(b: seq<byte>, i: nat)
    requires i <= |b|
    ensures PassesNoCR(b, i, Version(b, i), 0)
  {
    LiteralNoCR(b, i, HTTP1, 0);
    var n := Literal(b, i, HTTP1, 0);
    if n.At? {
      DigitsNoCR(b, n.pos, 0);
      JoinNoCR(b, i, n.pos, Digits(b, n.pos, 0), 0);
    }
  }

  lemma RestEnd(b: seq<byte>, q: RequestRef, i: nat)
    requires i <= |b|
    ensures PassesNoCR(b, i, RequestRest(b, q, i), 0)
    ensures RequestRest(b, q, i).At? ==> EndsBlank(b, RequestRest(b, q, i).pos)
  {
    VersionNoCR(b, i);
    var v := Version(b, i);
    if v.At? {
      LineEndNoCR(b, v.pos);
      var e := LineEnd(b, v.pos);
      JoinNoCR(b, i, v.pos, e, 0);
      if e.At? {
        HeadersEnd(b, e.pos, []);
        JoinNoCR(b, i, e.pos, Headers(b, e.pos, []), 0);
      }
    }
  }

  /** An accepted request has no lone CR and ends in an empty line; one still incomplete has no lone CR. */
  lemma RequestEnd(b: seq<byte>)
    ensures PassesNoCR(b, 0, Request(b), 0)
    ensures Request(b).At? ==> EndsBlank(b, Request(b).pos)
  {
    TargetNoCR(b);
    var t := Target(b);
    if t.At? {
      RestEnd(b, t.value, t.pos);
      JoinNoCR(b, 0, t.pos, RequestRest(b, t.value, t.pos), 0);
    }
  }

  // ----- the shortcut

  /** On a buffer without a lone CR the shortcut never reports an error. */
  lemma {:induction false} ShortcutNotBad(b: seq<byte>, i: nat, count: nat)
    requires i <= |b| && count < 2 && CRsPaired(b, 0)
    ensures !BlankLine(b, i, count).Bad?
    decreases |b| - i
  {
    if i < |b| {
      if b[i] == CR || b[i] == LF {
        var e := LineEnd(b, i);
        if e.At? && count == 0 {
          ShortcutNotBad(b, e.pos, 1);
        }
      } else {
        ShortcutNotBad(b, i + 1, 0);
      }
    }
  }

  /** Where the line before the empty line that ends at `j` ends. */
  function LastLF(b: seq<byte>, j: nat): (e: nat)
    requires EndsBlank(b, j)
    ensures e + 1 < j <= e + 3 && b[e] == LF
  {
    if b[j - 2] == LF then j - 2 else j - 3
  }

  /** Started anywhere up to that point, the shortcut finds the empty line, whatever is behind it. */
  lemma {:induction false} ShortcutFinds(b: seq<byte>, i: nat, count: nat, j: nat)
    requires NoLoneCR(b, 0, j) && EndsBlank(b, j) && count < 2
    requires i <= LastLF(b, j) || (i == LastLF(b, j) + 1 && count == 1)
    ensures BlankLine(b, i, count).At?
    decreases |b| - i
  {
    if b[i] == CR || b[i] == LF {
      if count == 0 {
        ShortcutFinds(b, LineEnd(b, i).pos, 1, j);
      }
    } else {
      ShortcutFinds(b, i + 1, 0, j);
    }
  }

  /** A refused request, `lastLen` octets of which were there before, with no empty line found in it yet. */
  predicate RefusedLate(b: seq<byte>, lastLen: nat)
    requires lastLen <= |b|
  {
    lastLen > 0 && Request(b).Bad? && IsComplete(b, lastLen).Partial?
  }

  /**
   For every buffer, if what was there before was no request: the shortcut changes the result if and only if
   an error has been read but no empty line, and then it reports the request as incomplete.
   */
  lemma ShortcutIsExact(b: seq<byte>, lastLen: nat)
    requires lastLen <= |b| && !Request(b[..lastLen]).At?
    ensures ParseRequest(b, lastLen) == Request(b) <==> !RefusedLate(b, lastLen)
    ensures RefusedLate(b, lastLen) ==> ParseRequest(b, lastLen).Partial?
  {
    RequestEnd(b);
    RequestExtends(b[..lastLen], b);
    var start := if lastLen < 3 then 0 else lastLen - 3;
    if Request(b).At? {
      ShortcutFinds(b, start, 0, Request(b).pos);
    } else if Request(b).Partial? {
      ShortcutNotBad(b, start, 0);
    }
  }

  /** The smallest case: a letter, then a control character in a second read. */
  lemma SmallestRefusedLate()
    ensures var b: seq<byte> := [71, 1]; Request(b).Bad? && ParseRequest(b, 1).Partial?
  {
    var b: seq<byte> := [71, 1];
    assert Token(b, 0) == Token(b, 1) == Bad;
    assert BlankLine(b, 0, 0) == BlankLine(b, 1, 0) == BlankLine(b, 2, 0) == Partial;
  }

  /** The whole of an accepted request is accepted whatever was there before; a proper prefix never is. */
  lemma PrefixOfRequest(r: seq<byte>, n: nat, lastLen: nat)
    requires Request(r).At? && Request(r).pos == |r|
    requires lastLen < n <= |r|
    ensures ParseRequest(r[..n], lastLen) == if n == |r| then Request(r) else Partial
  {
    var a := r[..n];
    RequestExtends(a, r);
    RequestExtends(r[..lastLen], r);
    assert a[..lastLen] == r[..lastLen];
    ShortcutIsExact(a, lastLen);
    if n == |r| {
      assert a == r;
    }
  }
}
