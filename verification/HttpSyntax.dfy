/**
 The HTTP request parser over a byte buffer: for each scanner a recursive definition, and the
 cursor-advancing loop proved equal to it. Results are positions in the buffer, as in the original.
 */
module HttpSyntax {
  import opened Bytes

  const CR: byte := 13
  const LF: byte := 10
  const TAB: byte := 9
  const SP: byte := 32
  const COLON: byte := 58
  const DEL: byte := 127

  /** `At` is success with the cursor after what was read; `Partial` is -2 and `Bad` is -1. */
  datatype Scan<+T> = At(pos: nat, value: T) | Partial | Bad {
    predicate IsFailure() { !At? }

    function PropagateFailure<U>(): (r: Scan<U>)
      requires !At?
    {
      if Partial? then Partial else Bad
    }

    function Extract(): (r: (nat, T))
      requires At?
    {
      (pos, value)
    }
  }

  predicate IsControl(c: byte) { (c < 32 && c != TAB) || c == DEL }

  predicate IsPrintable(c: byte) { 32 <= c < 127 }

  predicate IsBlank(c: byte) { c == SP || c == TAB }

  predicate IsDigit(c: byte) { 48 <= c <= 57 }

  /** The characters a header name may start with. */
  predicate IsTokenChar(c: byte) {
    33 <= c <= 39 || c == 42 || c == 43 || c == 45 || c == 46 || IsDigit(c) ||
    65 <= c <= 90 || 94 <= c <= 122 || c == 124 || c == 126
  }

  // ----- scanners

  function Expect(b: seq<byte>, i: nat, c: byte): (r: Scan<()>)
    requires i <= |b|
    ensures r.At? ==> r.pos == i + 1 <= |b|
  {
    if i == |b| then Partial else if b[i] != c then Bad else At(i + 1, ())
  }

  /** A line end at `i`: LF, or CR LF. */
  function LineEnd(b: seq<byte>, i: nat): (r: Scan<()>)
    requires i < |b|
    ensures r.At? ==> i < r.pos <= |b|
  {
    if b[i] == CR then Expect(b, i + 1, LF) else if b[i] == LF then At(i + 1, ()) else Bad
  }

  /** A token up to the next space. */
  function Token(b: seq<byte>, i: nat): (r: Scan<()>)
    requires i <= |b|
    ensures r.At? ==> i <= r.pos < |b|
    decreases |b| - i
  {
    if i == |b| then Partial
    else if b[i] == SP then At(i, ())
    else if b[i] < 32 || b[i] == DEL then Bad
    else Token(b, i + 1)
  }

  /** The rest of the line; the value is where the text ends, the cursor is behind the line end. */
  function ToEol(b: seq<byte>, i: nat): (r: Scan<nat>)
    requires i <= |b|
    ensures r.At? ==> i <= r.value < r.pos <= |b|
    decreases |b| - i
  {
    if i == |b| then Partial
    else if IsControl(b[i]) then
      var (pos, _) :- LineEnd(b, i);
      At(pos, i)
    else ToEol(b, i + 1)
  }

  function Digits(b: seq<byte>, i: nat, v: nat): (r: Scan<nat>)
    requires i <= |b|
    ensures r.At? ==> i <= r.pos < |b|
    decreases |b| - i
  {
    if i == |b| then Partial
    else if IsDigit(b[i]) then Digits(b, i + 1, v * 10 + b[i] - 48)
    else At(i, v)
  }

  function Number(b: seq<byte>, i: nat): (r: Scan<nat>)
    requires i <= |b|
    ensures r.At? ==> i < r.pos < |b|
  {
    if i == |b| then Partial else if !IsDigit(b[i]) then Bad else Digits(b, i, 0)
  }

  /** The text `word` from its index `k` on. */
  function Literal(b: seq<byte>, i: nat, word: seq<byte>, k: nat): (r: Scan<()>)
    requires i <= |b| && k <= |word|
    ensures r.At? ==> r.pos == i + (|word| - k) <= |b|
    decreases |word| - k
  {
    if k == |word| then At(i, ())
    else
      var (pos, _) :- Expect(b, i, word[k]);
      Literal(b, pos, word, k + 1)
  }

  const HTTP1: seq<byte> := [72, 84, 84, 80, 47, 49, 46]  // "HTTP/1."

  function Version(b: seq<byte>, i: nat): (r: Scan<nat>)
    requires i <= |b|
    ensures r.At? ==> i < r.pos < |b|
  {
    var (pos, _) :- Literal(b, i, HTTP1, 0);
    Number(b, pos)
  }

  /** A header name up to its colon. Octets from 128 on are negative characters, hence below a space. */
  function Name(b: seq<byte>, i: nat): (r: Scan<()>)
    requires i <= |b|
    ensures r.At? ==> i <= r.pos < |b|
    decreases |b| - i
  {
    if i == |b| then Partial
    else if b[i] == COLON then At(i, ())
    else if b[i] < 32 || b[i] >= 128 then Bad
    else Name(b, i + 1)
  }

  function Blanks(b: seq<byte>, i: nat): (r: Scan<()>)
    requires i <= |b|
    ensures r.At? ==> i <= r.pos < |b|
    decreases |b| - i
  {
    if i == |b| then Partial else if IsBlank(b[i]) then Blanks(b, i + 1) else At(i, ())
  }

  /** Where a header's name and value lie in the buffer; a continuation line has no name. */
  datatype HeaderRef = HeaderRef(name: nat, nameLen: nat, value: nat, valueLen: nat)

  const MAX_HEADERS: nat := 100

  function HeaderValue(b: seq<byte>, name: nat, nameLen: nat, i: nat): (r: Scan<HeaderRef>)
    requires i <= |b|
    ensures r.At? ==> i < r.pos <= |b|
  {
    var (pos, end) :- ToEol(b, i);
    At(pos, HeaderRef(name, nameLen, i, end - i))
  }

  /** One header line that is not the empty line, the `n`-th. */
  function HeaderLine(b: seq<byte>, i: nat, n: nat): (r: Scan<HeaderRef>)
    requires i < |b|
    ensures r.At? ==> i < r.pos <= |b|
  {
    if n == MAX_HEADERS then Bad
    else if n != 0 && IsBlank(b[i]) then HeaderValue(b, i, 0, i)
    else if !IsTokenChar(b[i]) then Bad
    else
      var (colon, _) :- Name(b, i);
      var (start, _) :- Blanks(b, colon + 1);
      HeaderValue(b, i, colon - i, start)
  }

  /** Header lines up to and including the empty line. */
  function Headers(b: seq<byte>, i: nat, acc: seq<HeaderRef>): (r: Scan<seq<HeaderRef>>)
    requires i <= |b|
    ensures r.At? ==> i < r.pos <= |b|
    decreases |b| - i
  {
    if i == |b| then Partial
    else if b[i] == CR || b[i] == LF then
      var (pos, _) :- LineEnd(b, i);
      At(pos, acc)
    else
      var (pos, h) :- HeaderLine(b, i, |acc|);
      Headers(b, pos, acc + [h])
  }

  /** Method and path by position, the minor version, and the headers. */
  datatype RequestRef = RequestRef(method_: nat, methodLen: nat, path: nat, pathLen: nat, minor: nat,
                                   headers: seq<HeaderRef>)

  /** An empty line before the request is skipped. */
  function LeadingLine(b: seq<byte>): (r: Scan<()>)
    ensures r.At? ==> r.pos <= |b|
  {
    if b == [] then Partial else if b[0] == CR || b[0] == LF then LineEnd(b, 0) else At(0, ())
  }

  /** The version, its line end and the headers. */
  function RequestRest(b: seq<byte>, q: RequestRef, i: nat): (r: Scan<RequestRef>)
    requires i <= |b|
    ensures r.At? ==> i < r.pos <= |b|
  {
    var (v, minor) :- Version(b, i);
    var (h, _) :- LineEnd(b, v);
    var (pos, hs) :- Headers(b, h, []);
    At(pos, q.(minor := minor, headers := hs))
  }

  /** The method and the path, up to the space behind the path. */
  function Target(b: seq<byte>): (r: Scan<RequestRef>)
    ensures r.At? ==> r.pos <= |b|
  {
    var (m, _) :- LeadingLine(b);
    var (mEnd, _) :- Token(b, m);
    var (pEnd, _) :- Token(b, mEnd + 1);
    At(pEnd + 1, RequestRef(m, mEnd - m, mEnd + 1, pEnd - (mEnd + 1), 0, []))
  }

  function Request(b: seq<byte>): (r: Scan<RequestRef>)
    ensures r.At? ==> r.pos <= |b|
  {
    var (q, line) :- Target(b);
    RequestRest(b, line, q)
  }

  /** The shortcut: is there an empty line from `i` on? `count` line ends have just been seen. */
  function BlankLine(b: seq<byte>, i: nat, count: nat): (r: Scan<()>)
    requires i <= |b| && count < 2
    ensures r.At? ==> r.pos <= |b|
    decreases |b| - i
  {
    if i == |b| then Partial
    else if b[i] == CR || b[i] == LF then
      var (pos, _) :- LineEnd(b, i);
      if count == 1 then At(pos, ()) else BlankLine(b, pos, 1)
    else BlankLine(b, i + 1, 0)
  }

  function IsComplete(b: seq<byte>, lastLen: nat): (r: Scan<()>)
    requires lastLen <= |b|
  {
    BlankLine(b, if lastLen < 3 then 0 else lastLen - 3, 0)
  }

  /** A parse attempt on the buffer, `lastLen` octets of which were there at the attempt before. */
  function ParseRequest(b: seq<byte>, lastLen: nat): (r: Scan<RequestRef>)
    requires lastLen <= |b|
  {
    if lastLen == 0 then Request(b)
    else
      var _ :- IsComplete(b, lastLen);
      Request(b)
  }

  // ----- the loops

  method ExecToken(b: seq<byte>, start: nat) returns (r: Scan<()>)
    requires start <= |b|
    ensures r == Token(b, start)
  {
    var i := start;
    while i < |b|
      invariant start <= i <= |b| && Token(b, start) == Token(b, i)
    {
      if b[i] == SP {
        return At(i, ());
      } else if !IsPrintable(b[i]) {
        if b[i] < 32 || b[i] == DEL {
          return Bad;
        }
      }
      i := i + 1;
    }
    return Partial;
  }

  /** The line scanner: eight octets at a time while they last, then one by one. */
  method ExecToEol(b: seq<byte>, start: nat) returns (r: Scan<nat>)
    requires start <= |b|
    ensures r == ToEol(b, start)
  {
    var i := start;
    var found := false;
    while |b| - i >= 8 && !found
      invariant start <= i <= |b| && ToEol(b, start) == ToEol(b, i)
      invariant found ==> i < |b| && IsControl(b[i])
      decreases |b| - i, !found
    {
      ghost var at := i;
      var k := 0;
      while k < 8 && IsPrintable(b[i])
        invariant 0 <= k <= 8 && i == at + k && ToEol(b, start) == ToEol(b, i)
      {
        i, k := i + 1, k + 1;
      }
      if k < 8 {
        if IsControl(b[i]) {
          found := true;
        } else {
          i := i + 1;
        }
      }
    }
    while !found
      invariant start <= i <= |b| && ToEol(b, start) == ToEol(b, i)
      invariant found ==> i < |b| && IsControl(b[i])
      decreases |b| - i, !found
    {
      if i == |b| {
        return Partial;
      }
      if !IsPrintable(b[i]) && IsControl(b[i]) {
        found := true;
      } else {
        i := i + 1;
      }
    }
    var e :- LineEnd(b, i);
    return At(e.0, i);
  }

  method ExecNumber(b: seq<byte>, start: nat) returns (r: Scan<nat>)
    requires start <= |b|
    ensures r == Number(b, start)
  {
    if start == |b| {
      return Partial;
    }
    if !IsDigit(b[start]) {
      return Bad;
    }
    var i, v: nat := start, 0;
    while i < |b|
      invariant start <= i <= |b| && 0 <= v && Digits(b, start, 0) == Digits(b, i, v)
    {
      if IsDigit(b[i]) {
        v := v * 10 + b[i] - 48;
      } else {
        return At(i, v);
      }
      i := i + 1;
    }
    return Partial;
  }

  method ExecVersion(b: seq<byte>, start: nat) returns (r: Scan<nat>)
    requires start <= |b|
    ensures r == Version(b, start)
  {
    var i: nat, k := start, 0;
    while k < |HTTP1|
      invariant 0 <= k <= |HTTP1| && i <= |b| && Literal(b, start, HTTP1, 0) == Literal(b, i, HTTP1, k)
    {
      if i == |b| {
        return Partial;
      }
      if b[i] != HTTP1[k] {
        return Bad;
      }
      i, k := i + 1, k + 1;
    }
    r := ExecNumber(b, i);
  }

  method ExecName(b: seq<byte>, start: nat) returns (r: Scan<()>)
    requires start <= |b|
    ensures r == Name(b, start)
  {
    var i := start;
    while i < |b|
      invariant start <= i <= |b| && Name(b, start) == Name(b, i)
    {
      if b[i] == COLON {
        return At(i, ());
      } else if b[i] < 32 || b[i] >= 128 {
        return Bad;
      }
      i := i + 1;
    }
    return Partial;
  }

  method ExecBlanks(b: seq<byte>, start: nat) returns (r: Scan<()>)
    requires start <= |b|
    ensures r == Blanks(b, start)
  {
    var i := start;
    while i < |b|
      invariant start <= i <= |b| && Blanks(b, start) == Blanks(b, i)
    {
      if !IsBlank(b[i]) {
        return At(i, ());
      }
      i := i + 1;
    }
    return Partial;
  }

  method ExecHeaderLine(b: seq<byte>, i: nat, n: nat) returns (r: Scan<HeaderRef>)
    requires i < |b|
    ensures r == HeaderLine(b, i, n)
  {
    if n == MAX_HEADERS {
      return Bad;
    }
    var nameLen, start := 0, i;
    if !(n != 0 && IsBlank(b[i])) {
      if !IsTokenChar(b[i]) {
        return Bad;
      }
      var name :- ExecName(b, i);
      nameLen := name.0 - i;
      var blanks :- ExecBlanks(b, name.0 + 1);
      start := blanks.0;
    }
    var value :- ExecToEol(b, start);
    return At(value.0, HeaderRef(i, nameLen, start, value.1 - start));
  }

  /** The header loop: fills the header table and advances the cursor. */
  method ExecHeaders(b: seq<byte>, start: nat) returns (r: Scan<seq<HeaderRef>>)
    requires start <= |b|
    ensures r == Headers(b, start, [])
  {
    var i := start;
    var headers := [];
    while i < |b| && b[i] != CR && b[i] != LF
      invariant start <= i <= |b| && Headers(b, start, []) == Headers(b, i, headers)
    {
      var line :- ExecHeaderLine(b, i, |headers|);
      headers := headers + [line.1];
      i := line.0;
    }
    if i == |b| {
      return Partial;
    }
    var e :- LineEnd(b, i);
    return At(e.0, headers);
  }

  method ExecIsComplete(b: seq<byte>, lastLen: nat) returns (r: Scan<()>)
    requires lastLen <= |b|
    ensures r == IsComplete(b, lastLen)
  {
    var i := if lastLen < 3 then 0 else lastLen - 3;
    var count := 0;
    while i < |b|
      invariant 0 <= i <= |b| && 0 <= count < 2 && IsComplete(b, lastLen) == BlankLine(b, i, count)
    {
      if b[i] == CR {
        i := i + 1;
        if i == |b| {
          return Partial;
        }
        if b[i] != LF {
          return Bad;
        }
        i, count := i + 1, count + 1;
      } else if b[i] == LF {
        i, count := i + 1, count + 1;
      } else {
        i, count := i + 1, 0;
      }
      if count == 2 {
        return At(i, ());
      }
    }
    return Partial;
  }

  method ExecRequestRest(b: seq<byte>, q: RequestRef, i: nat) returns (r: Scan<RequestRef>)
    requires i <= |b|
    ensures r == RequestRest(b, q, i)
  {
    var v :- ExecVersion(b, i);
    var e :- LineEnd(b, v.0);
    var hs :- ExecHeaders(b, e.0);
    return At(hs.0, q.(minor := v.1, headers := hs.1));
  }

  method ExecTarget(b: seq<byte>) returns (r: Scan<RequestRef>)
    ensures r == Target(b)
  {
    var lead :- LeadingLine(b);
    var m :- ExecToken(b, lead.0);
    var p :- ExecToken(b, m.0 + 1);
    return At(p.0 + 1, RequestRef(lead.0, m.0 - lead.0, m.0 + 1, p.0 - (m.0 + 1), 0, []));
  }

  method ExecRequest(b: seq<byte>) returns (r: Scan<RequestRef>)
    ensures r == Request(b)
  {
    var line :- ExecTarget(b);
    r := ExecRequestRest(b, line.1, line.0);
  }

  method ExecParseRequest(b: seq<byte>, lastLen: nat) returns (r: Scan<RequestRef>)
    requires lastLen <= |b|
    ensures r == ParseRequest(b, lastLen)
  {
    if lastLen != 0 {
      var _ :- ExecIsComplete(b, lastLen);
    }
    r := ExecRequest(b);
  }
}
