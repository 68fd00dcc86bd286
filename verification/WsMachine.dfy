/**
 The WebSocket frame parser read as a byte machine: one transition per octet.

 This is the simple form the buffer-at-a-time parser of module WsParser refines. A `Machine`
 holds the fields of the frame parser and of the message assembler it calls back into.
 */
module WsMachine {
  import opened Bytes

  type Index4 = k: nat | k < 4
  type Index8 = k: nat | k < 8
  type MaskKey = s: seq<byte> | |s| == 4 witness [0, 0, 0, 0]

  datatype State =
    | Opcode
    | Length
    | Length16(half: bool)      // false: high octet expected, true: low octet expected
    | Length64(index: Index8)
    | Mask(pos: Index4)
    | Payload

  datatype ReturnCode =
    | WsOk
    | ReservedBitsSet
    | InvalidOpcode
    | InvalidContinuation
    | ControlTooLong
    | NonCanonicalLength
    | FragmentedControl

  const TEXT: byte := 1
  const BINARY: byte := 2
  const CLOSE: byte := 8
  const PING: byte := 9
  const PONG: byte := 10

  /** A message or control frame handed to the application with status PARSER_OK. */
  datatype Delivery = Delivery(frameType: byte, payload: seq<byte>)

  datatype Machine = Machine(
    state: State,
    fragment: bool,
    fin: bool,
    control: bool,
    maskFlag: bool,
    maskPos: Index4,
    mask: MaskKey,
    remaining: nat,
    dataType: byte,
    data: seq<byte>,
    controlType: byte,
    controlData: seq<byte>,
    delivered: seq<Delivery>)

  datatype Outcome = Outcome(m: Machine, rc: ReturnCode)

  function OnOpcode(m: Machine, b: byte): (o: Outcome) {
    var opcode: byte := b % 16;
    var m1 := m.(fin := b >= 128);
    if b / 16 % 8 != 0 then Outcome(m, ReservedBitsSet)
    else if opcode == 0 then
      if !m1.fragment then Outcome(m1, InvalidContinuation)
      else Outcome(m1.(control := false, state := Length), WsOk)
    else if opcode >= 8 then
      if opcode != PING && opcode != PONG && opcode != CLOSE then Outcome(m1, InvalidOpcode)
      else if !m1.fin then Outcome(m1, FragmentedControl)
      else Outcome(m1.(control := true, controlData := [], controlType := opcode, state := Length), WsOk)
    else
      if opcode != TEXT && opcode != BINARY then Outcome(m1, InvalidOpcode)
      else Outcome(m1.(control := false, fragment := !m1.fin, data := [], dataType := opcode, state := Length), WsOk)
  }

  /** The state that follows the last length octet. */
  function AfterLength(m: Machine): (s: State) {
    if m.maskFlag then Mask(0) else Payload
  }

  /** The end of a frame: a control frame or a final data frame is delivered. */
  function EndOfPayload(m: Machine): (r: Machine) {
    var done :=
      if m.control then [Delivery(m.controlType, m.controlData)]
      else if m.fin then [Delivery(m.dataType, m.data)]
      else [];
    m.(state := Opcode, delivered := m.delivered + done)
  }

  function OnLength(m: Machine, b: byte): (o: Outcome) {
    var length := b % 128;
    var m1 := m.(maskFlag := b >= 128, maskPos := 0);
    if m.control && length > 125 then Outcome(m1, ControlTooLong)
    else if length == 126 then Outcome(m1.(state := Length16(false)), WsOk)
    else if length == 127 then Outcome(m1.(state := Length64(0)), WsOk)
    else
      var m2 := m1.(remaining := length, state := AfterLength(m1));
      Outcome(if m2.state.Payload? && length == 0 then EndOfPayload(m2) else m2, WsOk)
  }

  function OnLength16(m: Machine, b: byte): (o: Outcome)
    requires m.state.Length16?
  {
    if !m.state.half then Outcome(m.(remaining := b * 256, state := Length16(true)), WsOk)
    else
      var m1 := m.(remaining := m.remaining + b, state := AfterLength(m));
      Outcome(m1, if m1.remaining < 126 then NonCanonicalLength else WsOk)
  }

  /** The weight of octet `k` of the 64-bit length: the shift by 56, 48, ..., 0. */
  function Weight(k: Index8): (w: int)
    ensures w > 0
    decreases 7 - k
  {
    if k == 7 then 1 else 256 * Weight(k + 1)
  }

  function OnLength64(m: Machine, b: byte): (o: Outcome)
    requires m.state.Length64?
  {
    var k := m.state.index;
    var sum := if k == 0 then b * Weight(0) else m.remaining + b * Weight(k);
    if k < 7 then Outcome(m.(remaining := sum, state := Length64(k + 1)), WsOk)
    else Outcome(m.(remaining := sum, state := AfterLength(m)), if sum < 65536 then NonCanonicalLength else WsOk)
  }

  function OnMask(m: Machine, b: byte): (o: Outcome)
    requires m.state.Mask?
  {
    var k := m.state.pos;
    var m1 := m.(mask := m.mask[k := b]);
    if k < 3 then Outcome(m1.(state := Mask(k + 1)), WsOk)
    else
      var m2 := m1.(state := Payload);
      Outcome(if m.remaining == 0 then EndOfPayload(m2) else m2, WsOk)
  }

  /** The two-bit `mask_pos++`. */
  function Succ(pos: Index4): (k: Index4) {
    if pos == 3 then 0 else pos + 1
  }

  function Advance(pos: Index4, n: nat): (k: Index4)
    decreases n
  {
    if n == 0 then pos else Advance(Succ(pos), n - 1)
  }

  /** Payload octets with the mask taken off; `pos` is the mask index of the first. */
  function Unmask(mask: MaskKey, pos: Index4, p: seq<byte>): (r: seq<byte>)
    ensures |r| == |p|
    decreases |p|
  {
    if p == [] then [] else [Xor(p[0], mask[pos])] + Unmask(mask, Succ(pos), p[1..])
  }

  function Clear(m: Machine, p: seq<byte>): (r: seq<byte>)
    ensures |r| == |p|
  {
    if m.maskFlag then Unmask(m.mask, m.maskPos, p) else p
  }

  /** The machine after a run of payload octets of the current frame, before the end of the frame is noticed. */
  function Absorb(m: Machine, p: seq<byte>): (r: Machine)
    requires |p| <= m.remaining
  {
    var clear := Clear(m, p);
    var m1 := if m.control then m.(controlData := m.controlData + clear) else m.(data := m.data + clear);
    m1.(remaining := m.remaining - |p|, maskPos := if m.maskFlag then Advance(m.maskPos, |p|) else m.maskPos)
  }

  function Finish(m: Machine): (r: Machine) {
    if m.remaining == 0 then EndOfPayload(m) else m
  }

  /** A rejected length can leave a frame with no payload pending; it ends before the next octet is looked at. */
  function Settle(m: Machine): (r: Machine) {
    if m.state.Payload? && m.remaining == 0 then EndOfPayload(m) else m
  }

  function Step(m0: Machine, b: byte): (o: Outcome) {
    var m := Settle(m0);
    match m.state
    case Opcode => OnOpcode(m, b)
    case Length => OnLength(m, b)
    case Length16(_) => OnLength16(m, b)
    case Length64(_) => OnLength64(m, b)
    case Mask(_) => OnMask(m, b)
    case Payload => Outcome(Finish(Absorb(m, [b])), WsOk)
  }

  /** One call of the parser: octets are consumed until one is rejected; the rest of the buffer is then dropped. */
  function Run(m: Machine, bytes: seq<byte>): (o: Outcome)
    decreases |bytes|
  {
    if bytes == [] then Outcome(m, WsOk)
    else
      var o := Step(m, bytes[0]);
      if o.rc != WsOk then o else Run(o.m, bytes[1..])
  }

  /** What the octet reads as afterwards: masked payload is rewritten in place, all else is left alone. */
  function Rewritten(m0: Machine, b: byte): (r: byte) {
    var m := Settle(m0);
    if m.state.Payload? && m.maskFlag then Xor(b, m.mask[m.maskPos]) else b
  }

  /** The buffer after one call. */
  function RunBuffer(m: Machine, bytes: seq<byte>): (r: seq<byte>)
    ensures |r| == |bytes|
    decreases |bytes|
  {
    if bytes == [] then []
    else if Step(m, bytes[0]).rc != WsOk then bytes
    else [Rewritten(m, bytes[0])] + RunBuffer(Step(m, bytes[0]).m, bytes[1..])
  }

  // ----- splitting the input

  /**
   Split invariance, with the error case: running on `a + b` is running on `a` and then, unless `a`
   was rejected, on `b`. Nothing depends on where the reads cut the stream.
   */
  lemma {:induction false} RunSplit(m: Machine, a: seq<byte>, b: seq<byte>)
    ensures Run(m, a + b) ==
            if Run(m, a).rc != WsOk then Run(m, a) else Run(Run(m, a).m, b)
    decreases |a|
  {
    if a == [] {
      assert a + b == b;
    } else {
      assert (a + b)[0] == a[0] && (a + b)[1..] == a[1..] + b;
      var o := Step(m, a[0]);
      if o.rc == WsOk {
        RunSplit(o.m, a[1..], b);
      }
    }
  }

  /** The same for the buffer that is rewritten in place. */
  lemma {:induction false} RunBufferSplit(m: Machine, a: seq<byte>, b: seq<byte>)
    ensures RunBuffer(m, a + b) ==
            RunBuffer(m, a) + if Run(m, a).rc != WsOk then b else RunBuffer(Run(m, a).m, b)
    decreases |a|
  {
    if a == [] {
      assert a + b == b;
    } else {
      assert (a + b)[0] == a[0] && (a + b)[1..] == a[1..] + b;
      var o := Step(m, a[0]);
      if o.rc == WsOk {
        RunBufferSplit(o.m, a[1..], b);
      }
    }
  }

  lemma {:induction false} UnmaskSplit(mask: MaskKey, pos: Index4, p: seq<byte>, q: seq<byte>)
    ensures Unmask(mask, pos, p + q) == Unmask(mask, pos, p) + Unmask(mask, Advance(pos, |p|), q)
    decreases |p|
  {
    if p == [] {
      assert p + q == q;
    } else {
      assert (p + q)[0] == p[0] && (p + q)[1..] == p[1..] + q;
      UnmaskSplit(mask, Succ(pos), p[1..], q);
    }
  }

  lemma {:induction false} UnmaskAt(mask: MaskKey, pos: Index4, p: seq<byte>, i: nat)
    requires i < |p|
    ensures Unmask(mask, pos, p)[i] == Xor(p[i], mask[Advance(pos, i)])
    decreases |p|
  {
    if i > 0 {
      UnmaskAt(mask, Succ(pos), p[1..], i - 1);
    }
  }

  lemma {:induction false} AdvanceSplit(pos: Index4, i: nat, j: nat)
    ensures Advance(pos, i + j) == Advance(Advance(pos, i), j)
    decreases i
  {
    if i > 0 {
      AdvanceSplit(Succ(pos), i - 1, j);
    }
  }

  lemma ModFour(x: int)
    ensures (x + 4) % 4 == x % 4
  {}

  /** `mask_pos` counts payload octets modulo four. */
  lemma {:induction false} AdvanceCounts(pos: Index4, n: nat)
    ensures Advance(pos, n) == (pos + n) % 4
    decreases n
  {
    if n > 0 {
      AdvanceCounts(Succ(pos), n - 1);
      if pos == 3 {
        ModFour(n - 1);
      }
    }
  }

  lemma ClearSplit(m: Machine, p: seq<byte>, q: seq<byte>)
    requires |p| <= m.remaining
    ensures Clear(m, p + q) == Clear(m, p) + Clear(Absorb(m, p), q)
  {
    UnmaskSplit(m.mask, m.maskPos, p, q);
  }

  lemma AbsorbSplit(m: Machine, p: seq<byte>, q: seq<byte>)
    requires |p| + |q| <= m.remaining
    ensures Absorb(m, p + q) == Absorb(Absorb(m, p), q)
  {
    var u, v := Clear(m, p), Clear(Absorb(m, p), q);
    ClearSplit(m, p, q);
    AdvanceSplit(m.maskPos, |p|, |q|);
    Assoc(m.controlData, u, v);
    Assoc(m.data, u, v);
  }

  /** Bulk payload: absorbing a chunk at once is the same as stepping through its octets. */
  lemma {:induction false} BulkPayload(m: Machine, p: seq<byte>)
    requires m.state.Payload? && 0 < |p| <= m.remaining
    ensures Run(m, p) == Outcome(Finish(Absorb(m, p)), WsOk)
    decreases |p|
  {
    var b, rest := p[..1], p[1..];
    assert p == b + rest && b == [p[0]];
    var m1 := Absorb(m, b);
    assert Step(m, p[0]) == Outcome(Finish(m1), WsOk);
    if rest == [] {
      assert p == b;
    } else {
      AbsorbSplit(m, b, rest);
      BulkPayload(m1, rest);
    }
  }

  /** And the chunk is left unmasked in the buffer. */
  lemma {:induction false} BulkBuffer(m: Machine, p: seq<byte>)
    requires m.state.Payload? && 0 < |p| <= m.remaining
    ensures RunBuffer(m, p) == Clear(m, p)
    decreases |p|
  {
    var m1 := Absorb(m, [p[0]]);
    assert Step(m, p[0]) == Outcome(Finish(m1), WsOk);
    assert Clear(m, p) == [Rewritten(m, p[0])] + Clear(m1, p[1..]) by {
      assert Advance(m.maskPos, 1) == Succ(m.maskPos);
    }
    if p[1..] != [] {
      BulkBuffer(m1, p[1..]);
    }
  }

  // ----- what every reachable machine keeps

  /** A control frame never holds or awaits more than 125 octets, and never has an extended length. */
  predicate Sane(m: Machine) {
    && |m.controlData| <= 125
    && (m.control ==>
          && !m.state.Length16? && !m.state.Length64?
          && (m.state.Length? ==> m.controlData == [])
          && (m.state.Mask? || m.state.Payload? ==> |m.controlData| + m.remaining <= 125))
  }

  lemma SettleSane(m: Machine)
    requires Sane(m)
    ensures Sane(Settle(m)) && Settle(m).data == m.data
  {}

  lemma OpcodeSane(m: Machine, b: byte)
    requires Sane(m) && m.state.Opcode?
    ensures Sane(OnOpcode(m, b).m) && |OnOpcode(m, b).m.data| <= |m.data|
  {}

  lemma LengthSane(m: Machine, b: byte)
    requires Sane(m) && m.state.Length?
    ensures Sane(OnLength(m, b).m) && OnLength(m, b).m.data == m.data
  {}

  lemma ExtendedSane(m: Machine, b: byte)
    requires Sane(m) && (m.state.Length16? || m.state.Length64?)
    ensures Sane(Step(m, b).m) && Step(m, b).m.data == m.data
  {}

  lemma MaskSane(m: Machine, b: byte)
    requires Sane(m) && m.state.Mask?
    ensures Sane(OnMask(m, b).m) && OnMask(m, b).m.data == m.data
  {}

  lemma HeaderSane(m: Machine, b: byte)
    requires Sane(m) && !m.state.Opcode? && !m.state.Payload?
    ensures Sane(Step(m, b).m) && Step(m, b).m.data == m.data
  {
    match m.state
    case Length => LengthSane(m, b);
    case Mask(_) => MaskSane(m, b);
    case _ => ExtendedSane(m, b);
  }

  lemma PayloadSane(m: Machine, b: byte)
    requires Sane(m) && m.state.Payload? && m.remaining > 0
    ensures Sane(Finish(Absorb(m, [b])))
    ensures |Finish(Absorb(m, [b])).data| <= |m.data| + 1
  {
    assert |Clear(m, [b])| == 1;
  }

  lemma StepSane(m: Machine, b: byte)
    requires Sane(m)
    ensures Sane(Step(m, b).m)
    ensures |Step(m, b).m.data| <= |m.data| + 1
  {
    SettleSane(m);
    var s := Settle(m);
    match s.state
    case Opcode => OpcodeSane(s, b);
    case Payload => PayloadSane(s, b);
    case _ => HeaderSane(s, b);
  }

  /** The bound survives every call, also one that ends in an error the caller ignores. */
  lemma {:induction false} RunSane(m: Machine, bytes: seq<byte>)
    requires Sane(m)
    ensures Sane(Run(m, bytes).m)
    ensures |Run(m, bytes).m.data| <= |m.data| + |bytes|
    decreases |bytes|
  {
    if bytes != [] {
      StepSane(m, bytes[0]);
      if Step(m, bytes[0]).rc == WsOk {
        RunSane(Step(m, bytes[0]).m, bytes[1..]);
      }
    }
  }
}
