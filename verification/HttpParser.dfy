/**
 The incremental request parser a connection feeds its reads to, and the theorem that the way a request
 is cut into reads does not matter.
 */
module HttpParser {
  import opened Bytes
  import opened HttpSyntax
  import opened HttpLaws
  import opened HttpNames
  import opened Wrappers

  const HTTP_BUFSIZ := 8192
  const QUESTION: byte := 63

  datatype Status = Failed | Incomplete | TooBig | Complete

  /** What a request says. */
  datatype Message = Message(verb: Text, path: Text, query: map<Text, Text>, headers: map<Text, Text>)

  const EMPTY := Message([], [], map[], map[])

  // ----- from positions to a message

  predicate HeaderIn(b: Text, h: HeaderRef) { h.name + h.nameLen <= |b| && h.value + h.valueLen <= |b| }

  /** The positions of an accepted request lie in the buffer. */
  predicate InBuffer(b: Text, q: RequestRef) {
    && q.method_ + q.methodLen <= |b| && q.path + q.pathLen <= |b|
    && forall k :: 0 <= k < |q.headers| ==> HeaderIn(b, q.headers[k])
  }

  lemma {:induction false} HeadersInBuffer(b: Text, i: nat, acc: seq<HeaderRef>)
    requires i <= |b| && Headers(b, i, acc).At? && forall k :: 0 <= k < |acc| ==> HeaderIn(b, acc[k])
    ensures forall k :: 0 <= k < |Headers(b, i, acc).value| ==> HeaderIn(b, Headers(b, i, acc).value[k])
    decreases |b| - i
  {
    if b[i] != CR && b[i] != LF {
      var h := HeaderLine(b, i, |acc|);
      assert HeaderIn(b, h.value);
      HeadersInBuffer(b, h.pos, acc + [h.value]);
    }
  }

  lemma RequestInBuffer(b: Text)
    requires Request(b).At?
    ensures InBuffer(b, Request(b).value)
  {
    var t := Target(b);
    var v := Version(b, t.pos);
    HeadersInBuffer(b, LineEnd(b, v.pos).pos, []);
  }

  function HeaderMap(b: Text, hs: seq<HeaderRef>, m: map<Text, Text>): (r: map<Text, Text>)
    requires forall k :: 0 <= k < |hs| ==> HeaderIn(b, hs[k])
  {
    if hs == [] then m
    else
      var h := hs[|hs| - 1];
      assert HeaderIn(b, h);
      HeaderMap(b, hs[..|hs| - 1], m)[Lower(b[h.name..h.name + h.nameLen]) := b[h.value..h.value + h.valueLen]]
  }

  /** The path of a target, up to its question mark. */
  function PathOf(raw: Text): (p: Text) { raw[..Find(raw, QUESTION, 0)] }

  function QueryOf(raw: Text, m: map<Text, Text>): (r: map<Text, Text>) {
    var k := Find(raw, QUESTION, 0);
    if k == |raw| then m else Query(raw[k + 1..], 0, m)
  }

  /** A target as a client writes it: a path, and behind a question mark the query, if there is one. */
  function TargetText(path: Text, query: Option<Text>): (r: Text) {
    if query.None? then path else path + Ascii("?") + query.value
  }

  /** Path and query come apart at the first question mark. */
  lemma TargetComesApart(path: Text, query: Option<Text>, m: map<Text, Text>)
    requires Code('?') !in path
    ensures var raw := TargetText(path, query);
            && PathOf(raw) == path
            && QueryOf(raw, m) == if query.None? then m else Query(query.value, 0, m)
  {
    var raw := TargetText(path, query);
    assert Ascii("?") == [QUESTION];
    FindIs(raw, QUESTION, 0, |path|);
    assert raw[..|path|] == path;
    if query.Some? {
      assert raw[|path| + 1..] == query.value;
    }
  }

  /** The names and values of header lines. */
  function HeaderPairs(b: Text, hs: seq<HeaderRef>): (r: seq<(Text, Text)>)
    requires forall k :: 0 <= k < |hs| ==> HeaderIn(b, hs[k])
    ensures |r| == |hs|
  {
    seq(|hs|, k requires 0 <= k < |hs| =>
      assert HeaderIn(b, hs[k]);
      (b[hs[k].name..hs[k].name + hs[k].nameLen], b[hs[k].value..hs[k].value + hs[k].valueLen]))
  }

  /** Headers are stored the same way, with empty values too. */
  lemma {:induction false} HeadersFiled(b: Text, hs: seq<HeaderRef>)
    requires forall k :: 0 <= k < |hs| ==> HeaderIn(b, hs[k])
    ensures Filed(HeaderPairs(b, hs), HeaderMap(b, hs, map[]), false)
  {
    if hs == [] {
      FiledNone(HeaderPairs(b, hs), map[], false);
    } else {
      var p, h := hs[..|hs| - 1], hs[|hs| - 1];
      assert HeaderIn(b, h);
      HeadersFiled(b, p);
      var pair := (b[h.name..h.name + h.nameLen], b[h.value..h.value + h.valueLen]);
      FiledPush(HeaderPairs(b, p), HeaderMap(b, p, map[]), pair, false);
      assert HeaderPairs(b, hs) == HeaderPairs(b, p) + [pair];
    }
  }

  function Interpret(b: Text, q: RequestRef, m: Message): (r: Message)
    requires InBuffer(b, q)
  {
    var raw := b[q.path..q.path + q.pathLen];
    Message(b[q.method_..q.method_ + q.methodLen] + m.verb,
            if raw == [] then m.path else PathOf(raw),
            if raw == [] then m.query else QueryOf(raw, m.query),
            HeaderMap(b, q.headers, m.headers))
  }

  // ----- the driver

  datatype State = State(buf: Text, bytesRead: nat, bytesReadPrev: nat, complete: bool, msg: Message)

  predicate Wf(s: State) { s.bytesRead == |s.buf| && (!s.complete ==> s.msg == EMPTY) }

  const RESET := State([], 0, 0, false, EMPTY)

  /** One call with the octets of a read. */
  function Parse(s: State, data: Text): (r: (State, Status))
    requires Wf(s)
    ensures Wf(r.0)
  {
    if s.complete && data == [] then (s, Complete)
    else
      var s0 := if s.complete then RESET else s;
      var s1 := s0.(bytesReadPrev := s0.bytesRead);
      if s1.bytesRead + |data| > HTTP_BUFSIZ then (s1, TooBig)
      else
        var s2 := s1.(bytesRead := s1.bytesRead + |data|, buf := s1.buf + data);
        match ParseRequest(s2.buf, s2.bytesReadPrev)
        case Bad => (s2, Failed)
        case Partial => (s2, Incomplete)
        case At(_, q) =>
          RequestInBuffer(s2.buf);
          (s2.(complete := true, msg := Interpret(s2.buf, q, s2.msg)), Complete)
  }

  class Parser {
    var buf: Text
    var bytesRead: nat
    var bytesReadPrev: nat
    var isComplete: bool
    var verb: Text
    var path: Text
    var query: map<Text, Text>
    var headers: map<Text, Text>

    function View(): (s: State)
      reads this
    {
      State(buf, bytesRead, bytesReadPrev, isComplete, Message(verb, path, query, headers))
    }

    ghost predicate Valid()
      reads this
    {
      Wf(View())
    }

    constructor ()
      ensures Valid() && View() == RESET
    {
      buf, bytesRead, bytesReadPrev, isComplete := [], 0, 0, false;
      verb, path, query, headers := [], [], map[], map[];
    }

    method ResetState()
      modifies this
      ensures View() == RESET
    {
      buf, bytesRead, bytesReadPrev, isComplete := [], 0, 0, false;
      verb, path, query, headers := [], [], map[], map[];
    }

    method StoreTarget(raw: Text)
      modifies this`path, this`query
      ensures path == if raw == [] then old(path) else PathOf(raw)
      ensures query == if raw == [] then old(query) else QueryOf(raw, old(query))
    {
      if raw == [] {
        return;
      }
      var mark := Find(raw, QUESTION, 0);
      if mark < |raw| {
        path := raw[..mark];
        query := ExecQuery(raw[mark + 1..], query);
      } else {
        path := raw;
        assert raw[..mark] == raw;
      }
    }

    method StoreHeaders(hs: seq<HeaderRef>)
      requires forall k :: 0 <= k < |hs| ==> HeaderIn(buf, hs[k])
      modifies this`headers
      ensures headers == HeaderMap(buf, hs, old(headers))
    {
      var i := 0;
      while i < |hs|
        invariant 0 <= i <= |hs| && headers == HeaderMap(buf, hs[..i], old(headers))
      {
        var h := hs[i];
        assert HeaderIn(buf, h);
        assert hs[..i + 1][..i] == hs[..i];
        headers := headers[Lower(buf[h.name..h.name + h.nameLen]) := buf[h.value..h.value + h.valueLen]];
        i := i + 1;
      }
      assert hs[..i] == hs;
    }

    /** Stores method, path, query parameters and headers. */
    method Store(q: RequestRef)
      requires InBuffer(buf, q)
      modifies this`verb, this`path, this`query, this`headers
      ensures Message(verb, path, query, headers) ==
              Interpret(buf, q, Message(old(verb), old(path), old(query), old(headers)))
    {
      verb := buf[q.method_..q.method_ + q.methodLen] + verb;
      StoreTarget(buf[q.path..q.path + q.pathLen]);
      StoreHeaders(q.headers);
    }

    /** The value of a header by its name in any case. */
    function GetHeader(header: Text): (r: Text)
      reads this
    {
      Lookup(headers, header)
    }

    function GetQueryString(param: Text): (r: Text)
      reads this
    {
      Lookup(query, param)
    }

    method ParseData(data: Text) returns (status: Status)
      requires Valid()
      modifies this
      ensures Valid()
      ensures (View(), status) == Parse(old(View()), data)
    {
      if isComplete {
        if |data| == 0 {
          return Complete;
        }
        ResetState();
      }
      bytesReadPrev := bytesRead;
      if bytesRead + |data| > HTTP_BUFSIZ {
        return TooBig;
      }
      bytesRead := bytesRead + |data|;
      buf := buf + data;
      var pret := ExecParseRequest(buf, bytesReadPrev);
      match pret
      case Bad => return Failed;
      case Partial => return Incomplete;
      case At(_, q) =>
        RequestInBuffer(buf);
        Store(q);
        isComplete := true;
        return Complete;
    }
  }

  // ----- any cut, one result

  /** The reads in order: the final state and the status of each. */
  function Feed(s: State, pieces: seq<Text>): (r: (State, seq<Status>))
    requires Wf(s)
    decreases |pieces|
  {
    if pieces == [] then (s, [])
    else
      var (s1, status) := Parse(s, pieces[0]);
      var (s2, rest) := Feed(s1, pieces[1..]);
      (s2, [status] + rest)
  }

  /** Every status but the last is `Incomplete`, the last is `Complete`. */
  predicate CompletesAtLast(statuses: seq<Status>) {
    && statuses != [] && statuses[|statuses| - 1] == Complete
    && forall k :: 0 <= k < |statuses| - 1 ==> statuses[k] == Incomplete
  }

  /** A parser that waits for more holds no acceptable request. */
  predicate Waiting(s: State) { !s.complete ==> !Request(s.buf).At? }

  /** A read after which the buffer holds a refused request and no empty line. */
  predicate PutsOff(s: State, data: Text)
    requires Wf(s)
  {
    !s.complete && |s.buf + data| <= HTTP_BUFSIZ && RefusedLate(s.buf + data, |s.buf|)
  }

  lemma ParseWaits(s: State, data: Text)
    requires Wf(s) && Waiting(s)
    ensures Waiting(Parse(s, data).0)
  {
    var buf := (if s.complete then [] else s.buf);
    assert (buf + data)[..|buf|] == buf;
    if s.complete {
      assert [] + data == data;
    } else {
      ShortcutIsExact(s.buf + data, |s.buf|);
    }
  }

  /** Every reachable parser is one: whatever was read, however it was cut. */
  lemma {:induction false} FeedWaits(s: State, pieces: seq<Text>)
    requires Wf(s) && Waiting(s)
    ensures Waiting(Feed(s, pieces).0)
    decreases |pieces|
  {
    if pieces != [] {
      ParseWaits(s, pieces[0]);
      FeedWaits(Parse(s, pieces[0]).0, pieces[1..]);
    }
  }

  /** A completed request stays until more comes; then the parser starts afresh, with nothing left of it. */
  lemma StartsAfresh(s: State, data: Text)
    requires Wf(s) && s.complete
    ensures Parse(s, data) == if data == [] then (s, Complete) else Parse(RESET, data)
  {}

  lemma ReadWhole(s: State, data: Text)
    requires Wf(s) && !s.complete && ParseRequest(s.buf + data, |s.buf|) == Request(s.buf + data)
    ensures Parse(s, data).1 == Parse(RESET, s.buf + data).1
    ensures Parse(s, data).0.msg == Parse(RESET, s.buf + data).0.msg
  {
    assert [] + (s.buf + data) == s.buf + data;
  }

  /**
   Any octets at all: a read gets the status and the message that one call with everything read so far gets,
   except exactly that a refusal is put off as `Incomplete` while no empty line has been read.
   */
  lemma ReadIsExact(s: State, data: Text)
    requires Wf(s) && Waiting(s) && !s.complete
    ensures Parse(s, data).1 == TooBig <==> |s.buf| + |data| > 8192
    ensures Parse(s, data).0.buf == if Parse(s, data).1 == TooBig then s.buf else s.buf + data
    ensures var p, q := Parse(s, data), Parse(RESET, s.buf + data);
            && (p.1 == q.1 && p.0.msg == q.0.msg <==> !PutsOff(s, data))
            && (PutsOff(s, data) ==> p.1 == Incomplete && q.1 == Failed)
  {
    var b := s.buf + data;
    assert b[..|s.buf|] == s.buf && [] + b == b;
    ShortcutIsExact(b, |s.buf|);
    if |b| <= HTTP_BUFSIZ && !PutsOff(s, data) {
      ReadWhole(s, data);
    }
  }

  /** One piece of a request `r`: the last one completes it, any other does not. */
  lemma ParsePiece(s: State, piece: Text, r: Text)
    requires Wf(s) && !s.complete && piece != [] && s.buf + piece <= r && |r| <= HTTP_BUFSIZ
    requires Request(r).At? && Request(r).pos == |r| && InBuffer(r, Request(r).value)
    ensures var p := Parse(s, piece);
            && p.0.buf == s.buf + piece
            && if s.buf + piece == r then
                 p.1 == Complete && p.0.complete && p.0.msg == Interpret(r, Request(r).value, EMPTY)
               else p.1 == Incomplete && !p.0.complete
  {
    var a := s.buf + piece;
    assert a == r[..|a|];
    PrefixOfRequest(r, |a|, s.bytesRead);
  }

  lemma Split3(a: Text, b: Text, c: Text)
    ensures a + (b + c) == a + b + c && a + b <= a + b + c
  {}

  lemma LastLater(status: Status, statuses: seq<Status>)
    requires status == Incomplete && CompletesAtLast(statuses)
    ensures CompletesAtLast([status] + statuses)
  {}

  lemma FeedFirst(s: State, pieces: seq<Text>, s1: State, status: Status)
    requires Wf(s) && pieces != [] && Wf(s1) && Parse(s, pieces[0]) == (s1, status)
    ensures Feed(s, pieces) == (Feed(s1, pieces[1..]).0, [status] + Feed(s1, pieces[1..]).1)
  {}

  lemma {:induction false} FeedRest(s: State, pieces: seq<Text>, r: Text)
    requires Wf(s) && !s.complete && pieces != [] && s.buf + Concat(pieces) == r && |r| <= HTTP_BUFSIZ
    requires Request(r).At? && Request(r).pos == |r| && InBuffer(r, Request(r).value)
    requires forall k :: 0 <= k < |pieces| ==> pieces[k] != []
    ensures CompletesAtLast(Feed(s, pieces).1)
    ensures Feed(s, pieces).0.complete && Feed(s, pieces).0.msg == Interpret(r, Request(r).value, EMPTY)
    decreases |pieces|
  {
    var piece, more := pieces[0], pieces[1..];
    Split3(s.buf, piece, Concat(more));
    ParsePiece(s, piece, r);
    var s1, status := Parse(s, piece).0, Parse(s, piece).1;
    FeedFirst(s, pieces, s1, status);
    if more == [] {
      assert s.buf + piece + [] == s.buf + piece;
    } else {
      assert more[0] != [] && Concat(more) == more[0] + Concat(more[1..]);
      FeedRest(s1, more, r);
      LastLater(status, Feed(s1, more).1);
    }
  }

  /** A parser that has completed a request starts afresh on the next octets. */
  lemma FeedAfresh(s: State, pieces: seq<Text>)
    requires Wf(s) && s.complete && pieces != [] && pieces[0] != []
    ensures Feed(s, pieces) == Feed(RESET, pieces)
  {
    assert Parse(s, pieces[0]) == Parse(RESET, pieces[0]);
  }

  lemma OneShot(r: Text)
    requires |r| <= HTTP_BUFSIZ && Request(r).At? && InBuffer(r, Request(r).value)
    ensures Parse(RESET, r).1 == Complete && Parse(RESET, r).0.msg == Interpret(r, Request(r).value, EMPTY)
  {
    assert [] + r == r;
  }

  /**
   Incremental equals one-shot. Let `r` be a request the parser consumes whole. A parser that is new or
   has just completed a request, fed `r` in any non-empty pieces, reports `Incomplete` for every piece
   but the last and `Complete` for the last, with the method, path, parameters and headers of one call.
   */
  lemma IncrementalEqualsOneShot(s: State, pieces: seq<Text>)
    requires Wf(s) && (s.complete || s == RESET)
    requires pieces != [] && forall k :: 0 <= k < |pieces| ==> pieces[k] != []
    requires var r := Concat(pieces); |r| <= 8192 && Request(r).At? && Request(r).pos == |r|
    ensures CompletesAtLast(Feed(s, pieces).1)
    ensures Parse(RESET, Concat(pieces)).1 == Complete
    ensures Feed(s, pieces).0.msg == Parse(RESET, Concat(pieces)).0.msg
  {
    var r := Concat(pieces);
    RequestInBuffer(r);
    if s.complete {
      FeedAfresh(s, pieces);
    }
    assert [] + r == r;
    FeedRest(RESET, pieces, r);
    OneShot(r);
  }
}
