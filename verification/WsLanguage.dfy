/**
 The language the frame parser accepts: from a frame boundary, the inputs it takes without an error and
 that end at a frame boundary are exactly the encodings of frames, each legal for the parser's own flag.
 */
module WsLanguage {
  import opened Bytes
  import opened WsMachine
  import opened WsStream

  /** The `fragment` flag after a frame; a final continuation frame does not clear it. */
  function FragmentAfter(open: bool, f: Frame): (r: bool) {
    if IsControl(f.opcode) || f.opcode == 0 then open else !f.fin
  }

  predicate LegalFrames(fs: seq<Frame>, open: bool) {
    fs == [] || (LegalFrame(fs[0], open) && LegalFrames(fs[1..], FragmentAfter(open, fs[0])))
  }

  function EncodeFrames(fs: seq<Frame>, open: bool): (r: seq<byte>)
    requires LegalFrames(fs, open)
  {
    if fs == [] then [] else Encode(fs[0]) + EncodeFrames(fs[1..], FragmentAfter(open, fs[0]))
  }

  predicate Completes(m: Machine, bs: seq<byte>) { Run(m, bs).rc == WsOk && Run(m, bs).m.state == Opcode }

  // ----- frames are accepted

  /** What frames hand over when `data` of a message of type `typ` came before them. */
  function Handed(fs: seq<Frame>, typ: byte, data: seq<byte>): (r: seq<Delivery>)
    decreases |fs|
  {
    if fs == [] then []
    else
      var f := fs[0];
      if IsControl(f.opcode) then [Delivery(f.opcode, f.payload)] + Handed(fs[1..], typ, data)
      else
        var t, d := if f.opcode == 0 then typ else f.opcode, (if f.opcode == 0 then data else []) + f.payload;
        (if f.fin then [Delivery(t, d)] else []) + Handed(fs[1..], t, d)
  }

  lemma HandedFirst(m: Machine, fs: seq<Frame>, r: Machine)
    requires fs != [] && Framed(m, fs[0], r)
    ensures m.delivered + Handed(fs, m.dataType, m.data) == r.delivered + Handed(fs[1..], r.dataType, r.data)
  {
    var f, rest := fs[0], Handed(fs[1..], r.dataType, r.data);
    Assoc(m.delivered, [Delivery(if IsControl(f.opcode) then f.opcode else MessageType(m, f),
                                 if IsControl(f.opcode) then f.payload else Sofar(m, f) + f.payload)], rest);
    assert m.delivered + [] == m.delivered && [] + rest == rest;
  }

  lemma {:induction false} AcceptsFrames(m: Machine, fs: seq<Frame>)
    requires m.state == Opcode && LegalFrames(fs, m.fragment)
    ensures Completes(m, EncodeFrames(fs, m.fragment))
    ensures Run(m, EncodeFrames(fs, m.fragment)).m.delivered == m.delivered + Handed(fs, m.dataType, m.data)
    decreases |fs|
  {
    if fs != [] {
      RunFrame(m, fs[0]);
      var m1 := Run(m, Encode(fs[0])).m;
      RunSplit(m, Encode(fs[0]), EncodeFrames(fs[1..], m1.fragment));
      AcceptsFrames(m1, fs[1..]);
      HandedFirst(m, fs, m1);
    }
  }

  // ----- what is accepted is frames

  /** Inside a frame there must be another octet, and it must be accepted. */
  lemma NextOctet(m: Machine, bs: seq<byte>)
    requires Completes(m, bs) && (m.state != Opcode || bs != [])
    ensures bs != [] && Step(m, bs[0]).rc == WsOk && Completes(Step(m, bs[0]).m, bs[1..])
  {}

  lemma Unfinished(m: Machine, bs: seq<byte>)
    requires m.state == Payload && |bs| < m.remaining
    ensures Run(m, bs).m.state == Payload
  {
    if bs != [] {
      BulkPayload(m, bs);
      assert Absorb(m, bs).remaining > 0;
    }
  }

  lemma PayloadFits(m: Machine, bs: seq<byte>)
    requires m.state == Payload && Completes(m, bs)
    ensures m.remaining <= |bs|
  {
    if |bs| < m.remaining {
      Unfinished(m, bs);
    }
  }

  lemma {:induction false} KeyFits(m: Machine, bs: seq<byte>, k: Index4)
    requires m.state == Mask(k) && Completes(m, bs)
    ensures 4 - k + m.remaining <= |bs|
    decreases 4 - k
  {
    NextOctet(m, bs);
    var m1 := Step(m, bs[0]).m;
    if k < 3 {
      KeyFits(m1, bs[1..], k + 1);
    } else if m.remaining > 0 {
      PayloadFits(m1, bs[1..]);
    }
  }

  /** How many octets a frame has behind its length. */
  function BodySize(masked: bool, n: nat): (r: nat) { if masked then 4 + n else n }

  lemma BodyFits(m: Machine, bs: seq<byte>)
    requires m.state == AfterLength(m) && Completes(m, bs)
    ensures BodySize(m.maskFlag, m.remaining) <= |bs|
  {
    if m.maskFlag {
      KeyFits(m, bs, 0);
    } else {
      PayloadFits(m, bs);
    }
  }

  lemma Short16Inverse(m: Machine, bs: seq<byte>) returns (n: nat)
    requires m.state == Length16(false) && Completes(m, bs)
    ensures 126 <= n < 65536 && 2 + BodySize(m.maskFlag, n) <= |bs| && bs[..2] == ExtendedLength(n)
  {
    NextOctet(m, bs);
    var m1 := Step(m, bs[0]).m;
    NextOctet(m1, bs[1..]);
    var high: int, low: int := bs[0], bs[1];
    n := high * 256 + low;
    BodyFits(Step(m1, bs[1..][0]).m, bs[1..][1..]);
  }

  lemma OnlyZero(d: int, w: int, z: int)
    requires d * w == z && -w < z < w
    ensures d == 0
  {}

  lemma Below(q: byte, w: int)
    requires w > 0
    ensures 0 <= q * w <= 255 * w
  {}

  lemma Joined(q: byte, w: int, r: nat)
    requires 0 <= r < w
    ensures 0 <= q * w + r < 256 * w && (q * w + r) / w == q && (q * w + r) % w == r
  {
    Below(q, w);
    var x: int := q * w + r;
    Quotient(x, w);
    OnlyZero(q - x / w, w, x % w - r);
  }

  lemma OctetsJoin(b: byte, low: nat, k: Index8) returns (n: nat)
    requires k < 7 && low < 256 * Weight(k + 1)
    ensures n == b * Weight(k) + low && n < 256 * Weight(k) && Octets(n, k) == [b] + Octets(low, k + 1)
  {
    var high: int := b;
    Joined(b, Weight(k), low);
    n := high * Weight(k) + low;
  }

  /** From octet `k` on, `bs` adds `n` to the length `base` read so far, and has room for the body. */
  predicate LongRead(masked: bool, base: nat, bs: seq<byte>, k: Index8, n: nat) {
    && n < 256 * Weight(k) && base + n >= 65536
    && 8 - k + BodySize(masked, base + n) <= |bs| && bs[..8 - k] == Octets(n, k)
  }

  lemma LongLast(m: Machine, bs: seq<byte>)
    requires m.state == Length64(7) && Completes(m, bs)
    ensures bs != [] && LongRead(m.maskFlag, Partial(m), bs, 7, bs[0])
  {
    NextOctet(m, bs);
    BodyFits(Step(m, bs[0]).m, bs[1..]);
    assert bs[..1] == [bs[0]];
  }

  lemma HeadOf(bs: seq<byte>, n: nat)
    requires 0 < n <= |bs|
    ensures bs[..n] == [bs[0]] + bs[1..][..n - 1]
  {}

  lemma LongStep(masked: bool, base: nat, bs: seq<byte>, k: Index8, next: nat, low: nat) returns (n: nat)
    requires k < 7 && bs != [] && next == base + bs[0] * Weight(k) && LongRead(masked, next, bs[1..], k + 1, low)
    ensures LongRead(masked, base, bs, k, n)
  {
    n := OctetsJoin(bs[0], low, k);
    HeadOf(bs, 8 - k);
  }

  lemma {:induction false} LongInverse(m: Machine, bs: seq<byte>, k: Index8) returns (n: nat)
    requires m.state == Length64(k) && Completes(m, bs)
    ensures LongRead(m.maskFlag, Partial(m), bs, k, n)
    decreases 8 - k
  {
    NextOctet(m, bs);
    if k == 7 {
      LongLast(m, bs);
      n := bs[0];
    } else {
      OctetStep(m, bs[0]);
      var m1 := m.(remaining := Partial(m) + bs[0] * Weight(k), state := Length64(k + 1));
      var low := LongInverse(m1, bs[1..], k + 1);
      n := LongStep(m.maskFlag, Partial(m), bs, k, m1.remaining, low);
    }
  }

  /** The length octet and the extended length behind it are `n` in its shortest form. */
  predicate LengthRead(bs: seq<byte>, n: nat) {
    && n < LENGTH_LIMIT
    && var e := 1 + |ExtendedLength(n)|;
       && e + BodySize(bs != [] && bs[0] >= 128, n) <= |bs| && bs[1..e] == ExtendedLength(n)
       && bs[0] == (if bs[0] >= 128 then 128 else 0) + LengthField(n)
  }

  lemma LengthInverse16(m: Machine, bs: seq<byte>) returns (n: nat)
    requires bs != [] && bs[0] % 128 == 126 && m.state == Length16(false) && m.maskFlag == (bs[0] >= 128) &&
             Completes(m, bs[1..])
    ensures LengthRead(bs, n)
  {
    n := Short16Inverse(m, bs[1..]);
    assert bs[1..3] == bs[1..][..2];
  }

  lemma LengthInverse64(m: Machine, bs: seq<byte>) returns (n: nat)
    requires bs != [] && bs[0] % 128 == 127 && m.state == Length64(0) && m.maskFlag == (bs[0] >= 128) &&
             Completes(m, bs[1..])
    ensures LengthRead(bs, n)
  {
    assert 256 * Weight(0) == LENGTH_LIMIT;
    n := LongInverse(m, bs[1..], 0);
    assert bs[1..9] == bs[1..][..8];
  }

  lemma LengthInverse(m: Machine, bs: seq<byte>) returns (n: nat)
    requires m.state == Length && Completes(m, bs)
    ensures LengthRead(bs, n) && (m.control ==> n <= 125)
  {
    NextOctet(m, bs);
    var m1 := Step(m, bs[0]).m;
    if bs[0] % 128 == 126 {
      n := LengthInverse16(m1, bs);
    } else if bs[0] % 128 == 127 {
      n := LengthInverse64(m1, bs);
    } else {
      n := bs[0] % 128;
      if n > 0 || bs[0] >= 128 {
        BodyFits(m1, bs[1..]);
      }
    }
  }

  /** Masking undoes unmasking, so any octets are the masked form of some payload. */
  lemma MaskUnmasked(key: MaskKey, raw: seq<byte>)
    ensures MaskPayload(key, Unmask(key, 0, raw)) == raw
  {
    var p := Unmask(key, 0, raw);
    forall i | 0 <= i < |raw| ensures MaskPayload(key, p)[i] == raw[i] {
      UnmaskAt(key, 0, raw, i);
      AdvanceCounts(0, i);
      XorCancels(raw[i], key[i % 4]);
    }
  }

  lemma BodyInverse(masked: bool, n: nat, bs: seq<byte>) returns (key: Key, payload: seq<byte>)
    requires BodySize(masked, n) <= |bs|
    ensures key.Masked? == masked && |payload| == n && Body(key, payload) == bs[..BodySize(masked, n)]
  {
    if masked {
      var k, raw := bs[..4], bs[4..4 + n];
      key, payload := Masked(k), Unmask(k, 0, raw);
      MaskUnmasked(k, raw);
      assert bs[..4 + n] == k + raw;
    } else {
      key, payload := Unmasked, bs[..n];
    }
  }

  lemma OpcodeInverse(m: Machine, b: byte)
    requires m.state == Opcode && Step(m, b).rc == WsOk
    ensures var m1, opcode := Step(m, b).m, b % 16;
            && m1.state == Length && m1.control == IsControl(opcode) && b == (if b >= 128 then 128 else 0) + opcode
            && (IsControl(opcode) || IsData(opcode) || (opcode == 0 && m.fragment)) && (IsControl(opcode) ==> b >= 128)
  {}

  lemma PrefixBehind(p: seq<byte>, x: seq<byte>, y: seq<byte>, all: seq<byte>)
    requires x <= y && all == p + y
    ensures p + x <= all
  {}

  lemma PrefixParts(bs: seq<byte>, e: nat, ext: seq<byte>, body: seq<byte>)
    requires |bs| >= 2 && e == 1 + |ext| && e <= |bs| - 1 && bs[1..][1..e] == ext && body <= bs[1..][e..]
    ensures [bs[0]] + ([bs[1]] + (ext + body)) <= bs
  {
    var rest := bs[1..];
    var tail := rest[1..];
    assert tail == rest[1..e] + rest[e..];
    PrefixBehind(ext, body, rest[e..], tail);
    assert rest == [bs[1]] + tail;
    PrefixBehind([bs[1]], ext + body, tail, rest);
    assert bs == [bs[0]] + rest;
    PrefixBehind([bs[0]], [bs[1]] + (ext + body), rest, bs);
  }

  lemma FrameIsPrefix(bs: seq<byte>, n: nat, f: Frame)
    requires |bs| >= 2 && LengthRead(bs[1..], n) && f.opcode < 16 && |f.payload| == n && f.key.Masked? == (bs[1] >= 128)
    requires bs[0] == (if f.fin then 128 else 0) + f.opcode &&
             Body(f.key, f.payload) <= bs[1..][1 + |ExtendedLength(n)|..]
    ensures Encode(f) <= bs
  {
    EncodeParts(f);
    PrefixParts(bs, 1 + |ExtendedLength(n)|, ExtendedLength(n), Body(f.key, f.payload));
  }

  lemma FrameFrom(m: Machine, bs: seq<byte>) returns (f: Frame)
    requires bs != [] && m.state == Length && Completes(m, bs[1..]) &&
             bs[0] == (if bs[0] >= 128 then 128 else 0) + bs[0] % 16
    ensures f.fin == (bs[0] >= 128) && f.opcode == bs[0] % 16 && |f.payload| < LENGTH_LIMIT && Encode(f) <= bs
    ensures m.control ==> |f.payload| <= 125
  {
    var rest := bs[1..];
    var n := LengthInverse(m, rest);
    var key, payload := BodyInverse(rest[0] >= 128, n, rest[1 + |ExtendedLength(n)|..]);
    f := Frame(bs[0] >= 128, bs[0] % 16, key, payload);
    FrameIsPrefix(bs, n, f);
  }

  /** The first frame of an accepted input. */
  lemma FirstFrame(m: Machine, bs: seq<byte>) returns (f: Frame)
    requires m.state == Opcode && bs != [] && Completes(m, bs)
    ensures LegalFrame(f, m.fragment) && Encode(f) <= bs
  {
    NextOctet(m, bs);
    OpcodeInverse(m, bs[0]);
    f := FrameFrom(Step(m, bs[0]).m, bs);
  }

  lemma {:induction false} AcceptedIsFrames(m: Machine, bs: seq<byte>) returns (fs: seq<Frame>)
    requires m.state == Opcode && Completes(m, bs)
    ensures LegalFrames(fs, m.fragment) && bs == EncodeFrames(fs, m.fragment)
    decreases |bs|
  {
    if bs == [] {
      fs := [];
    } else {
      var f := FirstFrame(m, bs);
      var first, rest := Encode(f), bs[|Encode(f)|..];
      assert bs == first + rest;
      RunFrame(m, f);
      RunSplit(m, first, rest);
      var m1 := Run(m, first).m;
      var more := AcceptedIsFrames(m1, rest);
      fs := [f] + more;
      assert fs[1..] == more;
    }
  }

  /**
   The accepted language, both ways. From any machine at a frame boundary, an input is taken without an
   error and ends at a frame boundary if and only if it is a sequence of encoded frames: known opcodes,
   no reserved bits, control frames whole and of at most 125 octets, lengths in their shortest form, any
   keys, and continuation frames only where the machine's flag allows them.
   */
  lemma AcceptedLanguage(m: Machine, bs: seq<byte>)
    requires m.state == Opcode
    ensures Run(m, bs).rc == WsOk && Run(m, bs).m.state == Opcode <==>
            exists fs :: LegalFrames(fs, m.fragment) && bs == EncodeFrames(fs, m.fragment)
  {
    if Completes(m, bs) {
      var fs := AcceptedIsFrames(m, bs);
    }
    if fs: seq<Frame> :| LegalFrames(fs, m.fragment) && bs == EncodeFrames(fs, m.fragment) {
      AcceptsFrames(m, fs);
    }
  }
}
