/**
 Legal client streams in the sense of sections 5.2 to 5.5 of RFC 6455, and the theorem that the
 parser decodes every one of them exactly.
 */
module WsStream {
  import opened Bytes
  import opened WsMachine

  datatype Key = Unmasked | Masked(key: MaskKey)

  datatype Frame = Frame(fin: bool, opcode: byte, key: Key, payload: seq<byte>)

  /** Payload lengths fit in 64 bits; section 5.2 allows 63, the parser takes one more. */
  const LENGTH_LIMIT: int := 0x1_0000_0000_0000_0000

  // ----- the layout of one frame

  lemma Quotient(n: nat, w: int)
    requires w > 0 && n < 256 * w
    ensures 0 <= n / w < 256 && 0 <= n % w < w && n == n / w * w + n % w
  {}

  /** The octets of `n` of weight `Weight(k)` and below, most significant first. */
  function Octets(n: nat, k: Index8): (r: seq<byte>)
    requires n < 256 * Weight(k)
    decreases 7 - k
  {
    var w := Weight(k);
    Quotient(n, w);
    if k == 7 then [n] else [n / w] + Octets(n % w, k + 1)
  }

  function LengthField(n: nat): (f: nat)
    ensures f < 128
  {
    if n < 126 then n else if n < 65536 then 126 else 127
  }

  /** The extended payload length, in the shortest form. */
  function ExtendedLength(n: nat): (r: seq<byte>)
    requires n < LENGTH_LIMIT
  {
    if n < 126 then []
    else if n < 65536 then [n / 256, n % 256]
    else
      assert 256 * Weight(0) == 0x1_0000_0000_0000_0000;
      Octets(n, 0)
  }

  /** Section 5.3: octet `i` of the payload is combined with octet `i` modulo 4 of the key. */
  function MaskPayload(key: MaskKey, p: seq<byte>): (r: seq<byte>) {
    seq(|p|, i requires 0 <= i < |p| => Xor(p[i], key[i % 4]))
  }

  /** A bit of the key turns the bit of the payload over it around. */
  lemma MaskBits(key: MaskKey, p: seq<byte>, i: nat, k: nat)
    requires i < |p| && k < 8
    ensures |MaskPayload(key, p)| == |p|
    ensures Bit(MaskPayload(key, p)[i], k) == 1 <==> Bit(p[i], k) != Bit(key[i % 4], k)
  {
    XorBits(p[i], key[i % 4], k);
  }

  /** The second octet of a frame. */
  function LengthOctet(key: Key, n: nat): (b: byte) { (if key.Masked? then 128 else 0) + LengthField(n) }

  function Header(f: Frame): (r: seq<byte>)
    requires f.opcode < 16
  {
    [(if f.fin then 128 else 0) + f.opcode, LengthOctet(f.key, |f.payload|)]
  }

  /** The octets of a frame after the two-octet header and the extended length. */
  function Body(key: Key, payload: seq<byte>): (r: seq<byte>) {
    match key
    case Unmasked => payload
    case Masked(k) => k + MaskPayload(k, payload)
  }

  function Encode(f: Frame): (r: seq<byte>)
    requires f.opcode < 16 && |f.payload| < LENGTH_LIMIT
  {
    Header(f) + ExtendedLength(|f.payload|) + Body(f.key, f.payload)
  }

  // ----- how the parser reads it

  lemma UnmaskMasked(key: MaskKey, p: seq<byte>)
    ensures Unmask(key, 0, MaskPayload(key, p)) == p
  {
    var q := MaskPayload(key, p);
    forall i | 0 <= i < |p|
      ensures Unmask(key, 0, q)[i] == p[i]
    {
      UnmaskAt(key, 0, q, i);
      AdvanceCounts(0, i);
      XorCancels(p[i], key[i % 4]);
    }
  }

  /** Reads one octet that is accepted. */
  lemma RunOne(m: Machine, b: byte, rest: seq<byte>, r: Machine)
    requires Step(m, b) == Outcome(r, WsOk)
    ensures Run(m, [b] + rest) == Run(r, rest)
  {
    assert ([b] + rest)[0] == b && ([b] + rest)[1..] == rest;
  }

  /** The length read so far: the first octet starts afresh. */
  function Partial(m: Machine): (n: nat)
    requires m.state.Length64?
  {
    if m.state.index == 0 then 0 else m.remaining
  }

  lemma OctetStep(m: Machine, b: byte)
    requires m.state.Length64? && m.state.index < 7
    ensures Step(m, b) ==
            Outcome(m.(remaining := Partial(m) + b * Weight(m.state.index), state := Length64(m.state.index + 1)), WsOk)
  {}

  lemma LastOctet(m: Machine, b: byte)
    requires m.state == Length64(7) && Partial(m) + b >= 65536
    ensures Step(m, b) == Outcome(m.(remaining := Partial(m) + b, state := AfterLength(m)), WsOk)
  {}

  lemma OctetsStep(n: nat, k: Index8) returns (q: byte, r: nat)
    requires k < 7 && n < 256 * Weight(k)
    ensures n == q * Weight(k) + r && r < 256 * Weight(k + 1) && Octets(n, k) == [q] + Octets(r, k + 1)
  {
    Quotient(n, Weight(k));
    q, r := n / Weight(k), n % Weight(k);
  }

  lemma {:induction false} RunOctets(m: Machine, n: nat, k: Index8, rest: seq<byte>, r: Machine)
    requires m.state == Length64(k) && n < 256 * Weight(k) && Partial(m) + n >= 65536
    requires r == m.(remaining := Partial(m) + n, state := AfterLength(m))
    ensures Run(m, Octets(n, k) + rest) == Run(r, rest)
    decreases 7 - k
  {
    if k == 7 {
      LastOctet(m, n);
      RunOne(m, n, rest, r);
    } else {
      var first, left := OctetsStep(n, k);
      OctetStep(m, first);
      var m1 := m.(remaining := Partial(m) + first * Weight(k), state := Length64(k + 1));
      RunOctets(m1, left, k + 1, rest, r);
      Assoc([first], Octets(left, k + 1), rest);
      RunOne(m, first, Octets(left, k + 1) + rest, m1);
    }
  }

  /** The machine once the length is known: `remaining` holds it. */
  function Sized(m: Machine, n: nat): (r: Machine) {
    m.(remaining := n, state := AfterLength(m))
  }

  lemma RunExtendedLength(m: Machine, n: nat, rest: seq<byte>)
    requires 126 <= n < LENGTH_LIMIT
    requires m.state == if n < 65536 then Length16(false) else Length64(0)
    ensures Run(m, ExtendedLength(n) + rest) == Run(Sized(m, n), rest)
  {
    if n < 65536 {
      var m1 := OnLength16(m, n / 256).m;
      assert ExtendedLength(n) + rest == [n / 256] + ([n % 256] + rest);
      RunOne(m, n / 256, [n % 256] + rest, m1);
      RunOne(m1, n % 256, rest, Sized(m, n));
    } else {
      assert 256 * Weight(0) == 0x1_0000_0000_0000_0000;
      RunOctets(m, n, 0, rest, Sized(m, n));
    }
  }

  lemma {:induction false} RunKey(m: Machine, key: MaskKey, k: Index4, rest: seq<byte>)
    requires m.state == Mask(k) && m.mask[..k] == key[..k]
    ensures var m1 := m.(mask := key, state := Payload);
            Run(m, key[k..] + rest) == Run(if m.remaining == 0 then EndOfPayload(m1) else m1, rest)
    decreases 4 - k
  {
    var next := OnMask(m, key[k]).m;
    assert key[k..] + rest == [key[k]] + (key[k + 1..] + rest);
    RunOne(m, key[k], key[k + 1..] + rest, next);
    if k == 3 {
      assert m.mask[3 := key[3]] == key;
      assert key[4..] + rest == rest;
    } else {
      assert m.mask[k := key[k]][..k + 1] == key[..k + 1];
      RunKey(next, key, k + 1, rest);
    }
  }

  /** `r` is what `m`, which has just read an opcode, becomes when the rest of the frame has been read. */
  predicate Took(m: Machine, r: Machine, payload: seq<byte>) {
    && r.state == Opcode
    && r.fragment == m.fragment && r.dataType == m.dataType
    && if m.control then
         && r.data == m.data
         && r.delivered == m.delivered + [Delivery(m.controlType, m.controlData + payload)]
       else
         && r.data == m.data + payload
         && r.delivered == m.delivered + if m.fin then [Delivery(m.dataType, m.data + payload)] else []
  }

  lemma RunPayload(m: Machine, key: Key, payload: seq<byte>)
    requires m.state == Payload && m.remaining == |payload| > 0 && m.maskPos == 0
    requires m.maskFlag == key.Masked? && (key.Masked? ==> m.mask == key.key)
    ensures var p := if key.Masked? then MaskPayload(key.key, payload) else payload;
            var o := Run(m, p);
            o.rc == WsOk && Took(m, o.m, payload)
  {
    var p := if key.Masked? then MaskPayload(key.key, payload) else payload;
    BulkPayload(m, p);
    if key.Masked? {
      UnmaskMasked(key.key, payload);
    }
    assert Clear(m, p) == payload;
  }

  lemma RunBody(m: Machine, key: Key, payload: seq<byte>)
    requires m.state == AfterLength(m) && m.remaining == |payload| && m.maskPos == 0
    requires m.maskFlag == key.Masked? && (key.Unmasked? ==> payload != [])
    ensures var o := Run(m, Body(key, payload));
            o.rc == WsOk && Took(m, o.m, payload)
  {
    match key
    case Unmasked =>
      RunPayload(m, key, payload);
    case Masked(k) =>
      assert k[0..] == k && m.mask[..0] == k[..0];
      RunKey(m, k, 0, MaskPayload(k, payload));
      if payload == [] {
        assert m.data + [] == m.data && m.controlData + [] == m.controlData;
      } else {
        RunPayload(m.(mask := k, state := Payload), key, payload);
      }
  }

  lemma LengthStep(m: Machine, key: Key, n: nat)
    requires m.state == Length && (m.control ==> n <= 125)
    ensures var o := Step(m, LengthOctet(key, n));
            var m1 := m.(maskFlag := key.Masked?, maskPos := 0);
            && o.rc == WsOk
            && o.m == if n >= 65536 then m1.(state := Length64(0))
                      else if n >= 126 then m1.(state := Length16(false))
                      else if n == 0 && key.Unmasked? then EndOfPayload(Sized(m1, 0))
                      else Sized(m1, n)
  {
    var b := LengthOctet(key, n);
    assert b % 128 == LengthField(n) && (b >= 128 <==> key.Masked?);
  }

  lemma RunLength(m: Machine, key: Key, payload: seq<byte>)
    requires m.state == Length && |payload| < LENGTH_LIMIT && (m.control ==> |payload| <= 125)
    ensures var o := Run(m, [LengthOctet(key, |payload|)] + (ExtendedLength(|payload|) + Body(key, payload)));
            o.rc == WsOk && Took(m, o.m, payload)
  {
    var n, body := |payload|, Body(key, payload);
    var b := LengthOctet(key, n);
    LengthStep(m, key, n);
    var m1 := Step(m, b).m;
    RunOne(m, b, ExtendedLength(n) + body, m1);
    if n < 126 {
      assert ExtendedLength(n) + body == body;
      if n == 0 && key.Unmasked? {
        assert payload == [];
        assert m.data + [] == m.data && m.controlData + [] == m.controlData;
      } else {
        RunBody(m1, key, payload);
      }
    } else {
      RunExtendedLength(m1, n, body);
      RunBody(Sized(m1, n), key, payload);
    }
  }

  // ----- legal frames

  predicate IsControl(opcode: byte) { opcode == CLOSE || opcode == PING || opcode == PONG }

  predicate IsData(opcode: byte) { opcode == TEXT || opcode == BINARY }

  /** Sections 5.4 and 5.5 for one frame; `open` says that a fragmented message is under way. */
  predicate LegalFrame(f: Frame, open: bool) {
    && |f.payload| < LENGTH_LIMIT
    && (IsControl(f.opcode) || IsData(f.opcode) || (f.opcode == 0 && open))
    && (IsControl(f.opcode) ==> f.fin && |f.payload| <= 125)
  }

  /** The type of the message a data frame belongs to, and what it held before the frame. */
  function MessageType(m: Machine, f: Frame): (t: byte) { if f.opcode == 0 then m.dataType else f.opcode }

  function Sofar(m: Machine, f: Frame): (d: seq<byte>) { if f.opcode == 0 then m.data else [] }

  /** What the first octet of `f` makes of `m`. */
  predicate Opened(m: Machine, f: Frame, r: Machine) {
    && r.state == Length && r.fin == f.fin && r.delivered == m.delivered && r.control == IsControl(f.opcode)
    && if IsControl(f.opcode) then
         && r.controlType == f.opcode && r.controlData == []
         && r.data == m.data && r.dataType == m.dataType && r.fragment == m.fragment
       else
         && r.data == Sofar(m, f) && r.dataType == MessageType(m, f)
         && r.fragment == if f.opcode == 0 then m.fragment else !f.fin
  }

  lemma OpcodeOpens(m: Machine, f: Frame, b: byte)
    requires m.state == Opcode && LegalFrame(f, m.fragment) && b % 16 == f.opcode && b / 16 % 8 == 0 &&
             (b >= 128 <==> f.fin)
    ensures Step(m, b).rc == WsOk && Opened(m, f, Step(m, b).m)
  {}

  lemma FirstOctet(fin: bool, opcode: byte)
    requires opcode < 16
    ensures var b: byte := (if fin then 128 else 0) + opcode; b % 16 == opcode && b / 16 % 8 == 0 && (b >= 128 <==> fin)
  {}

  lemma OpcodeOctet(m: Machine, f: Frame)
    requires m.state == Opcode && LegalFrame(f, m.fragment)
    ensures Step(m, Header(f)[0]).rc == WsOk && Opened(m, f, Step(m, Header(f)[0]).m)
  {
    FirstOctet(f.fin, f.opcode);
    OpcodeOpens(m, f, Header(f)[0]);
  }

  /** What the whole of `f` makes of `m`. */
  predicate Framed(m: Machine, f: Frame, r: Machine) {
    && r.state == Opcode
    && if IsControl(f.opcode) then
         && r.delivered == m.delivered + [Delivery(f.opcode, f.payload)]
         && r.data == m.data && r.dataType == m.dataType && r.fragment == m.fragment
       else
         var all := Sofar(m, f) + f.payload;
         && r.data == all && r.dataType == MessageType(m, f)
         && r.fragment == (if f.opcode == 0 then m.fragment else !f.fin)
         && r.delivered == m.delivered + if f.fin then [Delivery(MessageType(m, f), all)] else []
  }

  lemma OpenedTook(m: Machine, f: Frame, m1: Machine, r: Machine)
    requires Opened(m, f, m1) && Took(m1, r, f.payload)
    ensures Framed(m, f, r)
  {
    assert [] + f.payload == f.payload;
  }

  lemma HeaderParts(h: seq<byte>, ext: seq<byte>, rest: seq<byte>)
    requires |h| == 2
    ensures h + ext + rest == [h[0]] + ([h[1]] + (ext + rest))
  {}

  lemma EncodeParts(f: Frame)
    requires f.opcode < 16 && |f.payload| < LENGTH_LIMIT
    ensures Encode(f) == [Header(f)[0]] +
                         ([LengthOctet(f.key, |f.payload|)] + (ExtendedLength(|f.payload|) + Body(f.key, f.payload)))
  {
    HeaderParts(Header(f), ExtendedLength(|f.payload|), Body(f.key, f.payload));
  }

  /** What one legal frame does to the machine, whichever key it uses and whatever ran before it. */
  lemma RunFrame(m: Machine, f: Frame)
    requires m.state == Opcode && LegalFrame(f, m.fragment)
    ensures Run(m, Encode(f)).rc == WsOk && Framed(m, f, Run(m, Encode(f)).m)
  {
    var tail := [LengthOctet(f.key, |f.payload|)] + (ExtendedLength(|f.payload|) + Body(f.key, f.payload));
    EncodeParts(f);
    OpcodeOctet(m, f);
    var m1 := Step(m, Header(f)[0]).m;
    RunOne(m, Header(f)[0], tail, m1);
    RunLength(m1, f.key, f.payload);
    OpenedTook(m, f, m1, Run(m1, tail).m);
  }

  // ----- legal streams

  /** A control frame. */
  datatype Control = Control(opcode: byte, key: Key, payload: seq<byte>)

  /** A non-final fragment and the control frames the sender put right behind it. */
  datatype Piece = Piece(key: Key, data: seq<byte>, between: seq<Control>)

  /** What a client sends: control frames, and messages cut into any number of fragments. */
  datatype Item =
    | Lone(control: Control)
    | Message(typ: byte, pieces: seq<Piece>, lastKey: Key, lastData: seq<byte>)

  predicate LegalControl(c: Control) { IsControl(c.opcode) && |c.payload| <= 125 }

  predicate LegalControls(cs: seq<Control>) {
    forall k :: 0 <= k < |cs| ==> LegalControl(cs[k])
  }

  predicate LegalPiece(p: Piece) {
    |p.data| < LENGTH_LIMIT && LegalControls(p.between)
  }

  predicate LegalPieces(pieces: seq<Piece>) {
    forall k :: 0 <= k < |pieces| ==> LegalPiece(pieces[k])
  }

  predicate LegalItem(i: Item) {
    match i
    case Lone(c) => LegalControl(c)
    case Message(typ, pieces, _, last) => IsData(typ) && |last| < LENGTH_LIMIT && LegalPieces(pieces)
  }

  predicate LegalItems(items: seq<Item>) {
    forall k :: 0 <= k < |items| ==> LegalItem(items[k])
  }

  function ControlFrame(c: Control): (f: Frame) { Frame(true, c.opcode, c.key, c.payload) }

  function EncodeControls(cs: seq<Control>): (r: seq<byte>)
    requires LegalControls(cs)
  {
    if cs == [] then [] else Encode(ControlFrame(cs[0])) + EncodeControls(cs[1..])
  }

  /** The frames of a message; only the first carries the message type, only the last is final. */
  function EncodePieces(opcode: byte, pieces: seq<Piece>, lastKey: Key, lastData: seq<byte>): (r: seq<byte>)
    requires opcode < 16 && |lastData| < LENGTH_LIMIT && LegalPieces(pieces)
    decreases |pieces|
  {
    if pieces == [] then Encode(Frame(true, opcode, lastKey, lastData))
    else
      Encode(Frame(false, opcode, pieces[0].key, pieces[0].data)) + EncodeControls(pieces[0].between) +
      EncodePieces(0, pieces[1..], lastKey, lastData)
  }

  function EncodeItem(i: Item): (r: seq<byte>)
    requires LegalItem(i)
  {
    match i
    case Lone(c) => Encode(ControlFrame(c))
    case Message(typ, pieces, key, last) => EncodePieces(typ, pieces, key, last)
  }

  function EncodeStream(items: seq<Item>): (r: seq<byte>)
    requires LegalItems(items)
  {
    if items == [] then [] else EncodeItem(items[0]) + EncodeStream(items[1..])
  }

  // ----- what the client meant

  function ControlDeliveries(cs: seq<Control>): (r: seq<Delivery>) {
    if cs == [] then [] else [Delivery(cs[0].opcode, cs[0].payload)] + ControlDeliveries(cs[1..])
  }

  function BetweenDeliveries(pieces: seq<Piece>): (r: seq<Delivery>) {
    if pieces == [] then [] else ControlDeliveries(pieces[0].between) + BetweenDeliveries(pieces[1..])
  }

  function JoinedData(pieces: seq<Piece>): (r: seq<byte>) {
    if pieces == [] then [] else pieces[0].data + JoinedData(pieces[1..])
  }

  /** In order of completion: the control frames inside a message come before the message. */
  function MeantItem(i: Item): (r: seq<Delivery>) {
    match i
    case Lone(c) => [Delivery(c.opcode, c.payload)]
    case Message(typ, pieces, _, last) => BetweenDeliveries(pieces) + [Delivery(typ, JoinedData(pieces) + last)]
  }

  function Meant(items: seq<Item>): (r: seq<Delivery>) {
    if items == [] then [] else MeantItem(items[0]) + Meant(items[1..])
  }

  // ----- decoding

  lemma {:induction false} RunControls(m: Machine, cs: seq<Control>)
    requires m.state == Opcode && LegalControls(cs)
    ensures var o := Run(m, EncodeControls(cs));
            && o.rc == WsOk && o.m.state == Opcode
            && o.m.delivered == m.delivered + ControlDeliveries(cs)
            && o.m.data == m.data && o.m.dataType == m.dataType && o.m.fragment == m.fragment
    decreases |cs|
  {
    if cs != [] {
      var f := ControlFrame(cs[0]);
      RunFrame(m, f);
      RunSplit(m, Encode(f), EncodeControls(cs[1..]));
      RunControls(Run(m, Encode(f)).m, cs[1..]);
      Assoc(m.delivered, [Delivery(cs[0].opcode, cs[0].payload)], ControlDeliveries(cs[1..]));
    }
  }

  lemma PieceAlgebra(delivered: seq<Delivery>, pieces: seq<Piece>, sofar: seq<byte>, lastData: seq<byte>)
    requires pieces != []
    ensures delivered + BetweenDeliveries(pieces) ==
            delivered + [] + ControlDeliveries(pieces[0].between) + BetweenDeliveries(pieces[1..])
    ensures sofar + (JoinedData(pieces) + lastData) ==
            sofar + pieces[0].data + (JoinedData(pieces[1..]) + lastData)
  {
    Assoc(delivered, ControlDeliveries(pieces[0].between), BetweenDeliveries(pieces[1..]));
    assert delivered + [] == delivered;
    Assoc(pieces[0].data, JoinedData(pieces[1..]), lastData);
    Assoc(sofar, pieces[0].data, JoinedData(pieces[1..]) + lastData);
  }

  lemma {:induction false} RunPieces(m: Machine, opcode: byte, pieces: seq<Piece>, lastKey: Key, lastData: seq<byte>)
    requires m.state == Opcode && |lastData| < LENGTH_LIMIT && LegalPieces(pieces)
    requires IsData(opcode) || (opcode == 0 && m.fragment)
    ensures var o := Run(m, EncodePieces(opcode, pieces, lastKey, lastData));
            var typ, sofar := if opcode == 0 then m.dataType else opcode, if opcode == 0 then m.data else [];
            && o.rc == WsOk && o.m.state == Opcode
            && o.m.delivered == m.delivered + BetweenDeliveries(pieces) +
                                [Delivery(typ, sofar + (JoinedData(pieces) + lastData))]
    decreases |pieces|
  {
    if pieces == [] {
      RunFrame(m, Frame(true, opcode, lastKey, lastData));
      assert JoinedData(pieces) + lastData == lastData;
      assert m.delivered + BetweenDeliveries(pieces) == m.delivered;
    } else {
      var p := pieces[0];
      var f := Frame(false, opcode, p.key, p.data);
      var cs, rest := EncodeControls(p.between), EncodePieces(0, pieces[1..], lastKey, lastData);
      RunFrame(m, f);
      var m1 := Run(m, Encode(f)).m;
      RunControls(m1, p.between);
      var m2 := Run(m1, cs).m;
      RunPieces(m2, 0, pieces[1..], lastKey, lastData);
      RunSplit(m, Encode(f), cs);
      RunSplit(m, Encode(f) + cs, rest);
      PieceAlgebra(m.delivered, pieces, if opcode == 0 then m.data else [], lastData);
    }
  }

  lemma RunItem(m: Machine, i: Item)
    requires m.state == Opcode && LegalItem(i)
    ensures var o := Run(m, EncodeItem(i));
            o.rc == WsOk && o.m.state == Opcode && o.m.delivered == m.delivered + MeantItem(i)
  {
    match i
    case Lone(c) => RunFrame(m, ControlFrame(c));
    case Message(typ, pieces, key, last) =>
      RunPieces(m, typ, pieces, key, last);
      assert [] + (JoinedData(pieces) + last) == JoinedData(pieces) + last;
      Assoc(m.delivered, BetweenDeliveries(pieces), [Delivery(typ, JoinedData(pieces) + last)]);
  }

  /**
   Every legal client stream decodes exactly: from any machine at a frame boundary, whatever its other
   fields hold, the parser accepts the stream and delivers what the client meant, in order.
   */
  lemma {:induction false} DecodesExactly(m: Machine, items: seq<Item>)
    requires m.state == Opcode && LegalItems(items)
    ensures var o := Run(m, EncodeStream(items));
            o.rc == WsOk && o.m.state == Opcode && o.m.delivered == m.delivered + Meant(items)
    decreases |items|
  {
    if items != [] {
      var first := EncodeItem(items[0]);
      RunItem(m, items[0]);
      RunSplit(m, first, EncodeStream(items[1..]));
      DecodesExactly(Run(m, first).m, items[1..]);
      Assoc(m.delivered, MeantItem(items[0]), Meant(items[1..]));
    }
  }

  // ----- reads

  /** The server parses each read as it comes and ignores the return code. */
  function RunReads(m: Machine, chunks: seq<seq<byte>>): (r: Machine)
    decreases |chunks|
  {
    if chunks == [] then m else RunReads(Run(m, chunks[0]).m, chunks[1..])
  }

  lemma {:induction false} ReadsAgree(m: Machine, chunks: seq<seq<byte>>)
    requires Run(m, Concat(chunks)).rc == WsOk
    ensures RunReads(m, chunks) == Run(m, Concat(chunks)).m
    decreases |chunks|
  {
    if chunks != [] {
      RunSplit(m, chunks[0], Concat(chunks[1..]));
      ReadsAgree(Run(m, chunks[0]).m, chunks[1..]);
    }
  }

  /** The same stream, cut into reads at any places, gives the same deliveries. */
  lemma DecodesHoweverCut(m: Machine, items: seq<Item>, chunks: seq<seq<byte>>)
    requires m.state == Opcode && LegalItems(items) && Concat(chunks) == EncodeStream(items)
    ensures RunReads(m, chunks).delivered == m.delivered + Meant(items)
    ensures RunReads(m, chunks).state == Opcode
  {
    DecodesExactly(m, items);
    ReadsAgree(m, chunks);
  }

  // ----- the mask position

  lemma AbsorbPosition(m: Machine, p: seq<byte>)
    requires m.state == Payload && m.maskFlag && m.maskPos == 0 && |p| < m.remaining
    ensures var r := Absorb(m, p);
            Finish(r) == r && r.state == Payload && r.maskPos == |p| % 4 && r.remaining == m.remaining - |p|
  {
    AdvanceCounts(0, |p|);
  }

  lemma PayloadPosition(m: Machine, p: seq<byte>, r: Machine)
    requires m.state == Payload && m.maskFlag && m.maskPos == 0 && 0 < |p| < m.remaining && r == Absorb(m, p)
    ensures Run(m, p) == Outcome(r, WsOk)
    ensures r.state == Payload && r.maskPos == |p| % 4 && r.remaining == m.remaining - |p|
  {
    AbsorbPosition(m, p);
    BulkPayload(m, p);
  }

  /** The header of a masked frame with a payload leaves the machine at mask position zero. */
  lemma RunMaskedHeader(m: Machine, key: MaskKey, n: nat, rest: seq<byte>) returns (r: Machine)
    requires m.state == Length && 0 < n < LENGTH_LIMIT && (m.control ==> n <= 125)
    ensures Run(m, [LengthOctet(Masked(key), n)] + (ExtendedLength(n) + (key + rest))) == Run(r, rest)
    ensures r.state == Payload && r.maskFlag && r.maskPos == 0 && r.remaining == n
  {
    var ext, tail := ExtendedLength(n), key + rest;
    LengthStep(m, Masked(key), n);
    var m1 := m.(maskFlag := true, maskPos := 0);
    var m2 := Sized(m1, n);
    RunOne(m, LengthOctet(Masked(key), n), ext + tail, Step(m, LengthOctet(Masked(key), n)).m);
    if n < 126 {
      assert ext + tail == tail;
    } else {
      RunExtendedLength(Step(m, LengthOctet(Masked(key), n)).m, n, tail);
    }
    assert key[0..] == key && m2.mask[..0] == key[..0];
    RunKey(m2, key, 0, rest);
    r := m2.(mask := key, state := Payload);
  }

  /** The octets of a masked frame up to and including payload octet `n`. */
  function EncodeUpTo(f: Frame, n: nat): (r: seq<byte>)
    requires f.opcode < 16 && f.key.Masked? && n <= |f.payload| < LENGTH_LIMIT
  {
    Header(f) + ExtendedLength(|f.payload|) + f.key.key + MaskPayload(f.key.key, f.payload)[..n]
  }

  lemma CutPayload(h: seq<byte>, key: seq<byte>, q: seq<byte>, n: nat)
    requires n <= |q|
    ensures h + key + q[..n] <= h + (key + q)
  {
    assert q == q[..n] + q[n..];
    assert h + (key + q) == h + key + q[..n] + q[n..];
  }

  lemma KeyParts(h: seq<byte>, ext: seq<byte>, key: seq<byte>, p: seq<byte>)
    ensures h + ext + key + p == h + ext + (key + p)
  {}

  lemma UpToParts(f: Frame, n: nat)
    requires f.opcode < 16 && f.key.Masked? && n <= |f.payload| < LENGTH_LIMIT
    ensures EncodeUpTo(f, n) <= Encode(f)
    ensures EncodeUpTo(f, n) == [Header(f)[0]] + ([LengthOctet(f.key, |f.payload|)] +
                                (ExtendedLength(|f.payload|) + (f.key.key + MaskPayload(f.key.key, f.payload)[..n])))
  {
    var h, ext, key, q := Header(f), ExtendedLength(|f.payload|), f.key.key, MaskPayload(f.key.key, f.payload);
    KeyParts(h, ext, key, q[..n]);
    HeaderParts(h, ext, key + q[..n]);
    CutPayload(h + ext, key, q, n);
  }

  /**
   At every point inside every legal masked frame `mask_pos` is the number of its payload octets read, modulo
   four.
   */
  lemma MaskPosition(m: Machine, f: Frame, n: nat)
    requires m.state == Opcode && LegalFrame(f, m.fragment) && f.key.Masked? && 0 < n < |f.payload|
    ensures EncodeUpTo(f, n) <= Encode(f)
    ensures var o := Run(m, EncodeUpTo(f, n));
            o.rc == WsOk && o.m.state == Payload && o.m.maskPos == n % 4 && o.m.remaining == |f.payload| - n
  {
    var p := MaskPayload(f.key.key, f.payload)[..n];
    UpToParts(f, n);
    OpcodeOctet(m, f);
    var m1 := Step(m, Header(f)[0]).m;
    var tail := [LengthOctet(f.key, |f.payload|)] + (ExtendedLength(|f.payload|) + (f.key.key + p));
    RunOne(m, Header(f)[0], tail, m1);
    var r := RunMaskedHeader(m1, f.key.key, |f.payload|, p);
    PayloadPosition(r, p, Absorb(r, p));
  }
}
