/**
 A frame on the wire in plain numbers: what the parser makes of the octets of section 5.2 of RFC 6455, said
 with nothing but their bits.
 */
module WsWire {
  import opened Bytes
  import opened WsMachine
  import opened WsStream
  import opened WsLanguage

  /** The seven bits of the second octet and the octets behind it give the length `n`, in the shortest form. */
  predicate LengthForm(n: nat, field: nat, ext: seq<byte>) {
    if n <= 125 then field == n && ext == []
    else if n <= 65535 then field == 126 && |ext| == 2 && BitsOf(ext, 8) == Bits(n, 16)
    else field == 127 && |ext| == 8 && BitsOf(ext, 8) == Bits(n, 64)
  }

  lemma {:induction false} PowerSum(m: nat, n: nat)
    ensures Pow2(m + n) == Pow2(m) * Pow2(n)
  {
    if m > 0 {
      PowerSum(m - 1, n);
    }
  }

  lemma {:induction false} WeightIs(k: Index8)
    ensures Weight(k) == Pow2(8 * (7 - k))
    decreases 7 - k
  {
    if k < 7 {
      WeightIs(k + 1);
      PowerSum(8, 8 * (6 - k));
      assert Pow2(8) == 256;
    }
  }

  lemma {:induction false} OctetsBits(n: nat, k: Index8)
    requires n < 256 * Weight(k)
    ensures BitsOf(WsStream.Octets(n, k), 8) == Bits(n, 8 * (8 - k)) && |WsStream.Octets(n, k)| == 8 - k
    decreases 7 - k
  {
    WeightIs(k);
    if k == 7 {
      assert BitsOf([n], 8) == Bits(n, 8) + [];
    } else {
      var q, r := OctetsStep(n, k);
      WeightIs(k + 1);
      PowerSum(8, 8 * (6 - k));
      assert Pow2(8) == 256;
      OctetsBits(r, k + 1);
      BitsParts(q, r, 8, 8 * (7 - k));
      BitsOfJoin([q], WsStream.Octets(r, k + 1), 8);
      assert BitsOf([q], 8) == Bits(q, 8) + [];
    }
  }

  lemma LengthIs(n: nat, field: nat, ext: seq<byte>)
    requires n < 0x1_0000_0000_0000_0000 && LengthForm(n, field, ext)
    ensures field == LengthField(n) && ext == ExtendedLength(n)
  {
    if 126 <= n <= 65535 {
      assert Pow2(8) == 256;
      BitsParts(n / 256, n % 256, 8, 8);
      assert BitsOf([n % 256], 8) == Bits(n % 256, 8) + [] && [n / 256, n % 256][1..] == [n % 256];
      OctetBitsInjective(ext, [n / 256, n % 256]);
    } else if n > 65535 {
      WeightIs(0);
      OctetsBits(n, 0);
      OctetBitsInjective(ext, ExtendedLength(n));
    }
  }

  /** Octet `p` is what is left of octet `b` when the key bits in `k` have turned its bits around. */
  predicate Cleared(p: byte, b: byte, k: byte) {
    forall i :: 0 <= i < 8 ==> (Bit(p, i) == 1 <==> Bit(b, i) != Bit(k, i))
  }

  /** `p` is what the octets `raw` of a frame say: themselves, or with the key over them again and again. */
  ghost predicate Says(key: Key, raw: seq<byte>, p: seq<byte>) {
    && |p| == |raw| && (key.Unmasked? ==> p == raw)
    && (key.Masked? ==> forall i :: 0 <= i < |raw| ==> Cleared(p[i], raw[i], key.key[i % 4]))
  }

  lemma Reveals(key: Key, raw: seq<byte>) returns (p: seq<byte>)
    ensures Says(key, raw, p) && Body(key, p) == (if key.Masked? then key.key else []) + raw
  {
    match key
    case Unmasked =>
      p := raw;
      assert [] + raw == raw;
    case Masked(k) =>
      p := Unmask(k, 0, raw);
      MaskUnmasked(k, raw);
      forall i | 0 <= i < |raw| ensures Cleared(p[i], raw[i], k[i % 4]) {
        forall j | 0 <= j < 8 ensures Bit(p[i], j) == 1 <==> Bit(raw[i], j) != Bit(k[i % 4], j) {
          MaskBits(k, p, i, j);
        }
      }
  }

  /** The octets of a frame: FIN and opcode, MASK and length, the extended length, the key and the payload. */
  function Wire(fin: bool, opcode: nat, field: nat, ext: seq<byte>, key: Key, raw: seq<byte>): (r: seq<byte>)
    requires opcode < 16 && field < 128
  {
    [(if fin then 128 else 0) + opcode, (if key.Masked? then 128 else 0) + field] + ext +
    (if key.Masked? then key.key else []) + raw
  }

  lemma HeaderIs(f: Frame, x: byte, y: byte)
    requires f.opcode < 16 && x == (if f.fin then 128 else 0) + f.opcode
    requires y == (if f.key.Masked? then 128 else 0) + LengthField(|f.payload|)
    ensures Header(f) == [x, y]
  {}

  lemma WireIsEncode(fin: bool, opcode: nat, field: nat, ext: seq<byte>, key: Key, raw: seq<byte>, p: seq<byte>)
    requires |raw| < 0x1_0000_0000_0000_0000 && opcode < 16 && field == LengthField(|raw|) &&
             ext == ExtendedLength(|raw|)
    requires |p| == |raw| && Body(key, p) == (if key.Masked? then key.key else []) + raw
    ensures Wire(fin, opcode, field, ext, key, raw) == Encode(Frame(fin, opcode, key, p))
  {
    var f, k := Frame(fin, opcode, key, p), if key.Masked? then key.key else [];
    HeaderIs(f, (if fin then 128 else 0) + opcode, (if key.Masked? then 128 else 0) + field);
    Assoc(Header(f) + ext, k, raw);
  }

  /**
   What the parser makes of one frame, in plain numbers. Text (1), binary (2) and continuation (0) frames of any
   length are taken, close (8), ping (9) and pong (10) frames of at most 125 octets. A final data frame hands over
   the message with the payload at its end; a control frame hands over its payload and leaves the message alone.
   */
  lemma FrameOnWire(m: Machine, fin: bool, opcode: nat, field: nat, ext: seq<byte>, key: Key, raw: seq<byte>)
    returns (p: seq<byte>)
    requires m.state == Opcode && |raw| < 0x1_0000_0000_0000_0000 && field < 128 && LengthForm(|raw|, field, ext)
    requires opcode in {1, 2} || (opcode == 0 && m.fragment) || (opcode in {8, 9, 10} && fin && |raw| <= 125)
    ensures Says(key, raw, p)
    ensures var o := Run(m, Wire(fin, opcode, field, ext, key, raw));
            && o.rc == WsOk && o.m.state == Opcode
            && (opcode >= 8 ==> o.m.delivered == m.delivered + [Delivery(opcode, p)])
            && (opcode >= 8 ==> (o.m.data, o.m.dataType, o.m.fragment) == (m.data, m.dataType, m.fragment))
            && (opcode in {1, 2} ==> o.m.data == p && o.m.dataType == opcode && o.m.fragment == !fin)
            && (opcode == 0 ==> o.m.data == m.data + p && o.m.dataType == m.dataType && o.m.fragment == m.fragment)
            && (opcode < 8 ==>
                  o.m.delivered == m.delivered + if fin then [Delivery(o.m.dataType, o.m.data)] else [])
  {
    p := Reveals(key, raw);
    LengthIs(|raw|, field, ext);
    WireIsEncode(fin, opcode, field, ext, key, raw, p);
    RunFrame(m, Frame(fin, opcode, key, p));
    assert [] + p == p;
  }

  /** Which first octets are taken, and what is wrong with the others. */
  lemma FirstOctetExactly(m: Machine, b: byte)
    requires m.state == Opcode
    ensures Step(m, b).rc == if b / 16 % 8 != 0 then ReservedBitsSet
                             else if b % 16 in {1, 2} then WsOk
                             else if b % 16 == 0 then if m.fragment then WsOk else InvalidContinuation
                             else if b % 16 in {8, 9, 10} then if b >= 128 then WsOk else FragmentedControl
                             else InvalidOpcode
  {}

  /** Which second octets are: a control frame has no extended length. */
  lemma SecondOctetExactly(m: Machine, b: byte)
    requires m.state == Length
    ensures Step(m, b).rc == if m.control && b % 128 > 125 then ControlTooLong else WsOk
  {}
}
