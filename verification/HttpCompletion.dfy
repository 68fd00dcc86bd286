/** A buffer is reported incomplete exactly if it can still become a request, and refused exactly if it cannot. */
module HttpCompletion {
  import opened Bytes
  import opened HttpSyntax
  import opened HttpLaws
  import opened HttpGrammar

  /** `w` brings a scan that ran out of input to its end, just where the input ends. */
  predicate Finishes<T>(r: Scan<T>, a: seq<byte>, w: seq<byte>, left: nat) { r.At? && r.pos + left == |a + w| }

  lemma LineEndFinish(a: seq<byte>, i: nat)
    requires i < |a| && LineEnd(a, i).Partial?
    ensures Finishes(LineEnd(a + [10], i), a, [10], 0)
  {}

  lemma {:induction false} TokenFinish(a: seq<byte>, i: nat)
    requires i <= |a| && Token(a, i).Partial?
    ensures Finishes(Token(a + [32], i), a, [32], 1)
    decreases |a| - i
  {
    if i < |a| {
      TokenFinish(a, i + 1);
    }
  }

  lemma {:induction false} ToEolFinish(a: seq<byte>, i: nat) returns (w: seq<byte>)
    requires i <= |a| && ToEol(a, i).Partial?
    ensures Finishes(ToEol(a + w, i), a, w, 0)
    decreases |a| - i
  {
    if i == |a| {
      w := [13, 10];
      LineEndExactly(a + w, i, i + 2);
    } else if IsControl(a[i]) {
      w := [10];
      LineEndFinish(a, i);
    } else {
      w := ToEolFinish(a, i + 1);
    }
  }

  lemma {:induction false} DigitsFinish(a: seq<byte>, i: nat, v: nat)
    requires i <= |a| && Digits(a, i, v).Partial?
    ensures Finishes(Digits(a + [13], i, v), a, [13], 1)
    decreases |a| - i
  {
    if i < |a| {
      DigitsFinish(a, i + 1, v * 10 + a[i] - 48);
    }
  }

  lemma {:induction false} LiteralFinish(a: seq<byte>, i: nat, word: seq<byte>, k: nat) returns (w: seq<byte>)
    requires i <= |a| && k <= |word| && Literal(a, i, word, k).Partial?
    ensures Finishes(Literal(a + w, i, word, k), a, w, 0)
    decreases |word| - k
  {
    if i == |a| {
      w := word[k..];
      LiteralFrom(a + w, i, word, k);
    } else {
      w := LiteralFinish(a, i + 1, word, k + 1);
    }
  }

  lemma {:induction false} NameFinish(a: seq<byte>, i: nat)
    requires i <= |a| && Name(a, i).Partial?
    ensures Finishes(Name(a + [58], i), a, [58], 1)
    decreases |a| - i
  {
    if i < |a| {
      NameFinish(a, i + 1);
    }
  }

  lemma {:induction false} BlanksFinish(a: seq<byte>, i: nat)
    requires i <= |a| && Blanks(a, i).Partial?
    ensures Finishes(Blanks(a + [13], i), a, [13], 1)
    decreases |a| - i
  {
    if i < |a| {
      BlanksFinish(a, i + 1);
    }
  }

  lemma Join(a: seq<byte>, v: seq<byte>, w: seq<byte>)
    ensures a + v + w == a + (v + w) && a <= a + v
  {}

  lemma ValueFinish(a: seq<byte>, i: nat, n: nat) returns (w: seq<byte>)
    requires i < |a| && HeaderLine(a, i, n).Partial? && Name(a, i).At? && Blanks(a, Name(a, i).pos + 1).At?
    ensures Finishes(HeaderLine(a + w, i, n), a, w, 0)
  {
    if n != 0 && IsBlank(a[i]) {
      w := ToEolFinish(a, i);
    } else {
      var name := Name(a, i).pos;
      var v := Blanks(a, name + 1).pos;
      w := ToEolFinish(a, v);
      NameExtends(a, a + w, i);
      BlanksExtends(a, a + w, name + 1);
    }
  }

  lemma LineIs(a: seq<byte>, i: nat, n: nat, c: nat, v: nat)
    requires i <= c < |a| && v <= |a| && n != MAX_HEADERS && !(n != 0 && IsBlank(a[i])) && IsTokenChar(a[i])
    requires Name(a, i).At? && Name(a, i).pos == c && Blanks(a, c + 1).At? && Blanks(a, c + 1).pos == v
    ensures HeaderLine(a, i, n) == HeaderValue(a, i, c - i, v)
  {}

  lemma ValuePending(b: seq<byte>, i: nat, nameLen: nat, v: nat)
    requires v + 1 == |b| && b[v] == 13
    ensures HeaderValue(b, i, nameLen, v).Partial?
  {}

  lemma BlanksStep(a: seq<byte>, i: nat, n: nat)
    requires i < |a| && HeaderLine(a, i, n).Partial? && Name(a, i).At? && Blanks(a, Name(a, i).pos + 1).Partial?
    requires !(n != 0 && IsBlank(a[i]))
    ensures var b := a + [13];
            && HeaderLine(b, i, n).Partial? && Name(b, i) == Name(a, i) && Blanks(b, Name(b, i).pos + 1).At?
  {
    var b, c := a + [13], Name(a, i).pos;
    NameExtends(a, b, i);
    BlanksFinish(a, c + 1);
    LineIs(b, i, n, c, |a|);
    ValuePending(b, i, c - i, |a|);
  }

  lemma NameStep(a: seq<byte>, i: nat, n: nat)
    requires i < |a| && HeaderLine(a, i, n).Partial? && Name(a, i).Partial? && !(n != 0 && IsBlank(a[i]))
    ensures var b := a + [58];
            && HeaderLine(b, i, n).Partial? && Name(b, i).At? && Blanks(b, Name(b, i).pos + 1).Partial?
  {
    NameFinish(a, i);
  }

  lemma HeaderLineFinish(a: seq<byte>, i: nat, n: nat) returns (w: seq<byte>)
    requires i < |a| && HeaderLine(a, i, n).Partial?
    ensures Finishes(HeaderLine(a + w, i, n), a, w, 0)
  {
    if n != 0 && IsBlank(a[i]) {
      w := ToEolFinish(a, i);
    } else if Name(a, i).Partial? {
      NameStep(a, i, n);
      BlanksStep(a + [58], i, n);
      var v := ValueFinish(a + [58] + [13], i, n);
      w := [58, 13] + v;
      assert a + [58] + [13] + v == a + w;
    } else if Blanks(a, Name(a, i).pos + 1).Partial? {
      BlanksStep(a, i, n);
      var v := ValueFinish(a + [13], i, n);
      w := [13] + v;
      Join(a, [13], v);
    } else {
      w := ValueFinish(a, i, n);
    }
  }

  lemma EmptyLine(a: seq<byte>, acc: seq<HeaderRef>)
    ensures Headers(a + [13, 10], |a|, acc).At?
  {
    LineEndExactly(a + [13, 10], |a|, |a| + 2);
  }

  lemma HeadersOn(a: seq<byte>, b: seq<byte>, i: nat, acc: seq<HeaderRef>, h: HeaderRef, pos: nat)
    requires a <= b && i < |a| && a[i] != CR && a[i] != LF && HeaderLine(a, i, |acc|) == At(pos, h)
    ensures pos <= |a| && Headers(b, i, acc) == Headers(b, pos, acc + [h])
  {
    HeaderLineExtends(a, b, i, |acc|);
  }

  lemma {:induction false} HeadersFinish(a: seq<byte>, i: nat, acc: seq<HeaderRef>) returns (w: seq<byte>)
    requires i <= |a| && Headers(a, i, acc).Partial?
    ensures Headers(a + w, i, acc).At?
    decreases |a| - i
  {
    if i == |a| {
      w := [13, 10];
      EmptyLine(a, acc);
    } else if a[i] == CR || a[i] == LF {
      w := [10];
      LineEndFinish(a, i);
    } else if HeaderLine(a, i, |acc|).Partial? {
      var v := HeaderLineFinish(a, i, |acc|);
      var h := HeaderLine(a + v, i, |acc|);
      w := v + [13, 10];
      Join(a, v, [13, 10]);
      HeadersOn(a + v, a + w, i, acc, h.value, h.pos);
      EmptyLine(a + v, acc + [h.value]);
    } else {
      var h := HeaderLine(a, i, |acc|);
      w := HeadersFinish(a, h.pos, acc + [h.value]);
      HeadersOn(a, a + w, i, acc, h.value, h.pos);
    }
  }

  lemma RestOn(a: seq<byte>, b: seq<byte>, q: RequestRef, i: nat)
    requires a <= b && i <= |a| && Version(a, i).At? && LineEnd(a, Version(a, i).pos).At?
    ensures var h := LineEnd(a, Version(a, i).pos).pos;
            && (RequestRest(b, q, i).At? <==> Headers(b, h, []).At?)
            && (RequestRest(b, q, i).Partial? <==> Headers(b, h, []).Partial?)
  {
    VersionExtends(a, b, i);
    LineEndExtends(a, b, Version(a, i).pos);
  }

  lemma RestFromHeaders(a: seq<byte>, q: RequestRef, i: nat) returns (w: seq<byte>)
    requires i <= |a| && RequestRest(a, q, i).Partial? && Version(a, i).At? && LineEnd(a, Version(a, i).pos).At?
    ensures RequestRest(a + w, q, i).At?
  {
    var h := LineEnd(a, Version(a, i).pos).pos;
    RestOn(a, a, q, i);
    w := HeadersFinish(a, h, []);
    RestOn(a, a + w, q, i);
  }

  lemma RestFromLineEnd(a: seq<byte>, q: RequestRef, i: nat) returns (w: seq<byte>)
    requires i <= |a| && Version(a, i).At? && LineEnd(a, Version(a, i).pos).Partial?
    ensures RequestRest(a + w, q, i).At?
  {
    var b, v := a + [10], Version(a, i).pos;
    VersionExtends(a, b, i);
    LineEndFinish(a, v);
    var u := RestFromHeaders(b, q, i);
    w := [10] + u;
    Join(a, [10], u);
  }

  lemma RestFromDigits(a: seq<byte>, q: RequestRef, i: nat) returns (w: seq<byte>)
    requires i <= |a| && Literal(a, i, HTTP1, 0).At? && Version(a, i).Partial? && Literal(a, i, HTTP1, 0).pos < |a|
    ensures RequestRest(a + w, q, i).At?
  {
    var b, n := a + [13], Literal(a, i, HTTP1, 0).pos;
    LiteralExtends(a, b, i, HTTP1, 0);
    DigitsFinish(a, n, 0);
    assert Version(b, i) == Digits(b, n, 0);
    var u := RestFromLineEnd(b, q, i);
    w := [13] + u;
    Join(a, [13], u);
  }

  lemma RestFromNumber(a: seq<byte>, q: RequestRef, i: nat) returns (w: seq<byte>)
    requires i <= |a| && Literal(a, i, HTTP1, 0).At? && Version(a, i).Partial?
    ensures RequestRest(a + w, q, i).At?
  {
    var n := Literal(a, i, HTTP1, 0).pos;
    if n < |a| {
      w := RestFromDigits(a, q, i);
    } else {
      var b := a + [48];
      LiteralExtends(a, b, i, HTTP1, 0);
      assert Digits(b, n, 0) == Digits(b, n + 1, 0) == Partial;
      var u := RestFromDigits(b, q, i);
      w := [48] + u;
      Join(a, [48], u);
    }
  }

  lemma RestFinish(a: seq<byte>, q: RequestRef, i: nat) returns (w: seq<byte>)
    requires i <= |a| && RequestRest(a, q, i).Partial?
    ensures RequestRest(a + w, q, i).At?
  {
    if Literal(a, i, HTTP1, 0).Partial? {
      var v := LiteralFinish(a, i, HTTP1, 0);
      var u := RestFromNumber(a + v, q, i);
      w := v + u;
      Join(a, v, u);
    } else if Version(a, i).Partial? {
      w := RestFromNumber(a, q, i);
    } else if LineEnd(a, Version(a, i).pos).Partial? {
      w := RestFromLineEnd(a, q, i);
    } else {
      w := RestFromHeaders(a, q, i);
    }
  }

  lemma TargetFromPath(a: seq<byte>) returns (w: seq<byte>)
    requires Target(a).Partial? && LeadingLine(a).At? && Token(a, LeadingLine(a).pos).At?
    ensures Finishes(Target(a + w), a, w, 0)
  {
    w := [32];
    var b, m := a + w, LeadingLine(a).pos;
    LineEndExtends(a, b, 0);
    TokenExtends(a, b, m);
    TokenFinish(a, Token(a, m).pos + 1);
  }

  lemma TargetFromMethod(a: seq<byte>) returns (w: seq<byte>)
    requires Target(a).Partial? && LeadingLine(a).At? && a != []
    ensures Finishes(Target(a + w), a, w, 0)
  {
    var m := LeadingLine(a).pos;
    if Token(a, m).At? {
      w := TargetFromPath(a);
    } else {
      var b := a + [32];
      LineEndExtends(a, b, 0);
      TokenFinish(a, m);
      var u := TargetFromPath(b);
      w := [32] + u;
      Join(a, [32], u);
    }
  }

  lemma StartsToken(b: seq<byte>, m: nat)
    requires m <= |b| && (m == |b| || (m + 1 == |b| && b[m] == 71))
    ensures Token(b, m).Partial?
  {
    assert m < |b| ==> Token(b, m) == Token(b, m + 1);
  }

  lemma TargetFinish(a: seq<byte>) returns (w: seq<byte>)
    requires Target(a).Partial?
    ensures Finishes(Target(a + w), a, w, 0)
  {
    if LeadingLine(a).At? {
      w := TargetFromMethod(a);
    } else {
      var v: seq<byte> := if a == [] then [71] else [10];
      assert a != [] ==> a == [13];
      StartsToken(a + v, LeadingLine(a + v).pos);
      var u := TargetFromMethod(a + v);
      w := v + u;
      Join(a, v, u);
    }
  }

  /** Whatever is incomplete can be completed. */
  lemma RequestFinish(a: seq<byte>) returns (w: seq<byte>)
    requires Request(a).Partial?
    ensures Request(a + w).At?
  {
    if Target(a).Partial? {
      var v := TargetFinish(a);
      var t := Target(a + v);
      var u := RestFinish(a + v, t.value, t.pos);
      w := v + u;
      Join(a, v, u);
      TargetExtends(a + v, a + w);
    } else {
      var t := Target(a);
      w := RestFinish(a, t.value, t.pos);
      TargetExtends(a, a + w);
    }
  }

  /**
   The three answers: a buffer is refused if and only if nothing that starts with it is a request, and incomplete
   if and only if it is none yet but something that starts with it is.
   */
  lemma AnswersExactly(a: seq<byte>)
    ensures Request(a).Bad? <==> forall w :: !Request(a + w).At?
    ensures Request(a).Partial? <==> !Request(a).At? && exists w :: Request(a + w).At?
  {
    forall w ensures Settled(Request(a), Request(a + w), |a|) {
      RequestExtends(a, a + w);
    }
    assert a + [] == a;
    if Request(a).Partial? {
      var w := RequestFinish(a);
      assert Request(a + w).At?;
    }
  }
}
