/**
 The server's frame printer and fragmenter, and the round trip through the parser: which messages
 come back, and which one length class does not.
 */
module WsResponse {
  import opened Bytes
  import opened WsMachine
  import opened WsStream

  /** Longer messages are split into continuation frames. */
  const WS_MAX_CHUNK_SIZE: int := 32768

  /** What the eight-octet header array held before it was written to. */
  type Stack = s: seq<byte> | |s| == 8 witness [0, 0, 0, 0, 0, 0, 0, 0]

  /**
   The low 16 bits of `htonl` on a little-endian host: octets 2 and 3 of `v`, swapped. `v` is a
   16-bit value here, so they are zero.
   */
  function SwappedLow(v: nat): (r: nat)
    ensures r < 65536
  {
    v / 0x1_0000 % 256 * 256 + v / 0x100_0000 % 256
  }

  // ----- the fragmenter

  /** The fragments of a message of type `opcode`: cut off one chunk while at least two are left. */
  function Fragments(data: seq<byte>, opcode: byte): (r: seq<Frame>)
    ensures r != []
    decreases |data|
  {
    if |data| < 2 * WS_MAX_CHUNK_SIZE then [Frame(true, opcode, Unmasked, data)]
    else [Frame(false, opcode, Unmasked, data[..WS_MAX_CHUNK_SIZE])] + Fragments(data[WS_MAX_CHUNK_SIZE..], 0)
  }

  function Payloads(fs: seq<Frame>): (r: seq<byte>) {
    if fs == [] then [] else fs[0].payload + Payloads(fs[1..])
  }

  /** Section 5.4: the type is on the first frame, FIN on the last, and nothing is lost or reordered. */
  lemma {:induction false} FragmentsAreLegal(data: seq<byte>, opcode: byte)
    ensures var fs := Fragments(data, opcode);
            && Payloads(fs) == data
            && (forall k :: 0 <= k < |fs| ==> fs[k].opcode == (if k == 0 then opcode else 0))
            && (forall k :: 0 <= k < |fs| ==> (fs[k].fin <==> k == |fs| - 1))
            && (forall k :: 0 <= k < |fs| - 1 ==> |fs[k].payload| == WS_MAX_CHUNK_SIZE)
            && |fs[|fs| - 1].payload| <= 65535
            && (|data| >= WS_MAX_CHUNK_SIZE ==> |fs[|fs| - 1].payload| >= WS_MAX_CHUNK_SIZE)
    decreases |data|
  {
    if |data| < 2 * WS_MAX_CHUNK_SIZE {
      assert Payloads([Frame(true, opcode, Unmasked, data)]) == data + [];
    } else {
      FragmentsAreLegal(data[WS_MAX_CHUNK_SIZE..], 0);
    }
  }

  /** The number of fragments, and fragment `i` as the loop computes it from its index. */
  lemma {:induction false} FragmentAt(data: seq<byte>, opcode: byte, i: nat)
    requires i < |Fragments(data, opcode)|
    ensures |Fragments(data, opcode)| == if |data| < WS_MAX_CHUNK_SIZE then 1 else |data| / WS_MAX_CHUNK_SIZE
    ensures i * WS_MAX_CHUNK_SIZE <= |data|
    ensures i < |Fragments(data, opcode)| - 1 ==> (i + 1) * WS_MAX_CHUNK_SIZE <= |data|
    ensures Fragments(data, opcode)[i] ==
            if i < |Fragments(data, opcode)| - 1
            then Frame(false, if i == 0 then opcode else 0, Unmasked,
                       data[i * WS_MAX_CHUNK_SIZE..(i + 1) * WS_MAX_CHUNK_SIZE])
            else Frame(true, if i == 0 then opcode else 0, Unmasked, data[i * WS_MAX_CHUNK_SIZE..])
    decreases |data|
  {
    if |data| >= 2 * WS_MAX_CHUNK_SIZE {
      var rest := data[WS_MAX_CHUNK_SIZE..];
      var n := |Fragments(rest, 0)|;
      if i == 0 {
        FragmentAt(rest, 0, 0);
      } else {
        FragmentAt(rest, 0, i - 1);
        if i - 1 < n - 1 {
          assert rest[(i - 1) * WS_MAX_CHUNK_SIZE..i * WS_MAX_CHUNK_SIZE] ==
                 data[i * WS_MAX_CHUNK_SIZE..(i + 1) * WS_MAX_CHUNK_SIZE];
        } else {
          assert rest[(i - 1) * WS_MAX_CHUNK_SIZE..] == data[i * WS_MAX_CHUNK_SIZE..];
        }
      }
    }
  }

  // ----- the printer

  /** The octets written for one fragment. */
  function Print(f: Frame, stack: Stack): (r: seq<byte>) {
    var n := |f.payload|;
    var h0: byte := (if f.fin then 128 else 0) + f.opcode % 16;
    (if n < 126 then [h0, n]
     else if n < 65535 then [h0, 126, n / 256, n % 256]
     else [h0, 127, SwappedLow(n % 65536) % 256, SwappedLow(n % 65536) / 256] + stack[4..])
    + f.payload
  }

  method SendFragment(fragment: seq<byte>, frameType: byte, fin: bool, stack: Stack) returns (sndBuf: seq<byte>)
    ensures sndBuf == Print(Frame(fin, frameType, Unmasked, fragment), stack)
  {
    var header := new byte[8](i requires 0 <= i < 8 => stack[i]);
    var headerSize;
    var n := |fragment|;
    header[0] := if fin then 128 else 0;
    header[0] := header[0] + frameType % 16;
    if n < 126 {
      header[1] := n;
      headerSize := 2;
    } else if n < 65535 {
      header[1] := 126;
      header[2], header[3] := n / 256, n % 256;
      headerSize := 4;
    } else {
      header[1] := 127;
      var sz := SwappedLow(n % 65536);
      header[2], header[3] := sz % 256, sz / 256;
      headerSize := 8;
      assert header[4..] == stack[4..];
    }
    sndBuf := header[..headerSize] + fragment;
  }

  /** The writes made for a message, one per fragment. */
  method SendData(data: seq<byte>, frameType: byte, stack: Stack) returns (writes: seq<seq<byte>>)
    ensures |writes| == |Fragments(data, frameType)|
    ensures forall k :: 0 <= k < |writes| ==> writes[k] == Print(Fragments(data, frameType)[k], stack)
  {
    FragmentAt(data, frameType, 0);
    if |data| < WS_MAX_CHUNK_SIZE {
      var w := SendFragment(data, frameType, true, stack);
      return [w];
    }
    var nChunks := |data| / WS_MAX_CHUNK_SIZE;
    writes := [];
    var i := 0;
    while i < nChunks
      invariant i <= nChunks && |writes| == i
      invariant forall k :: 0 <= k < i ==> writes[k] == Print(Fragments(data, frameType)[k], stack)
    {
      FragmentAt(data, frameType, i);
      ghost var f := Fragments(data, frameType)[i];
      var chunkType := if i == 0 then frameType else 0;
      var fin := if i < nChunks - 1 then false else true;
      var chunk := if i < nChunks - 1 then data[i * WS_MAX_CHUNK_SIZE..(i + 1) * WS_MAX_CHUNK_SIZE]
                   else data[i * WS_MAX_CHUNK_SIZE..];
      assert f == Frame(fin, chunkType, Unmasked, chunk);
      var w := SendFragment(chunk, chunkType, fin, stack);
      writes := writes + [w];
      i := i + 1;
    }
  }

  // ----- print, then parse

  /** Every octet written for a message. */
  function PrintAll(fs: seq<Frame>, stack: Stack): (r: seq<byte>) {
    if fs == [] then [] else Print(fs[0], stack) + PrintAll(fs[1..], stack)
  }

  /** Below 65535 octets the printer's layout is the one of section 5.2. */
  lemma PrintIsEncode(f: Frame, stack: Stack)
    requires f.opcode < 16 && f.key.Unmasked? && |f.payload| < 65535
    ensures Print(f, stack) == Encode(f)
  {
    if |f.payload| < 126 {
      assert Header(f) + [] == Header(f);
    }
  }

  lemma UnfinishedPayload(m: Machine, p: seq<byte>)
    requires m.state == Payload && 0 < |p| < m.remaining
    ensures Run(m, p).m.delivered == m.delivered
  {
    BulkPayload(m, p);
    assert Absorb(m, p).remaining > 0;
  }

  /** A 64-bit length is refused if it is below 65536, so fewer octets than that never complete the frame. */
  lemma {:induction false} RunShortOf64(m: Machine, os: seq<byte>, rest: seq<byte>)
    requires m.state.Length64? && !m.maskFlag && |os| == 8 - m.state.index && 0 < |rest| < 65536
    ensures Run(m, os + rest).m.delivered == m.delivered
    decreases |os|
  {
    var o := OnLength64(m, os[0]);
    assert os + rest == [os[0]] + (os[1..] + rest);
    if m.state.index < 7 {
      RunOne(m, os[0], os[1..] + rest, o.m);
      RunShortOf64(o.m, os[1..], rest);
    } else {
      assert (os + rest)[0] == os[0] && (os + rest)[1..] == rest;
      if o.rc == WsOk {
        UnfinishedPayload(o.m, rest);
      }
    }
  }

  /** Eight length octets and fewer than 65536 octets behind them complete no frame. */
  lemma RunLost(m: Machine, os: seq<byte>, rest: seq<byte>)
    requires m.state == Length && !m.control && |os| == 8 && 0 < |rest| < 65536
    ensures Run(m, [127] + (os + rest)).m.delivered == m.delivered
  {
    var m1 := m.(maskFlag := false, maskPos := 0, state := Length64(0));
    RunOne(m, 127, os + rest, m1);
    RunShortOf64(m1, os, rest);
  }

  lemma PrintLongest(f: Frame, stack: Stack)
    requires f.opcode < 16 && f.key.Unmasked? && |f.payload| == 65535
    ensures Print(f, stack) ==
            [Header(f)[0]] + ([127] + ([0, 0] + stack[4..] + f.payload[..2] + f.payload[2..]))
  {
    var p := f.payload;
    assert p == p[..2] + p[2..];
    var x := [0, 0] + stack[4..];
    assert x + (p[..2] + p[2..]) == x + p[..2] + p[2..];
  }

  /**
   A final fragment of exactly 65535 octets: the printer announces a 64-bit length, writes two of its
   octets and leaves four to chance, so the first two payload octets are read as the rest of it.
   Nothing is delivered, whatever the stack and the payload hold.
   */
  lemma LongestFragmentIsLost(m: Machine, f: Frame, stack: Stack)
    requires m.state == Opcode && LegalFrame(f, m.fragment) && !IsControl(f.opcode)
    requires f.key.Unmasked? && |f.payload| == 65535
    ensures Run(m, Print(f, stack)).m.delivered == m.delivered
  {
    var h := Header(f)[0];
    var os := [0, 0] + stack[4..] + f.payload[..2];
    var rest := f.payload[2..];
    PrintLongest(f, stack);
    OpcodeOctet(m, f);
    var m1 := Step(m, h).m;
    RunOne(m, h, [127] + (os + rest), m1);
    RunLost(m1, os, rest);
  }

  /** The length class the printer gets wrong. */
  predicate Broken(n: nat) { n >= 65535 && n % WS_MAX_CHUNK_SIZE == WS_MAX_CHUNK_SIZE - 1 }

  lemma BrokenTail(n: nat)
    requires n >= 2 * WS_MAX_CHUNK_SIZE
    ensures Broken(n - WS_MAX_CHUNK_SIZE) <==> Broken(n)
  {}

  /** The outcome of parsing the printed fragments of `data`, part of a message of which `sofar` came before. */
  predicate Parsed(m: Machine, o: Outcome, typ: byte, sofar: seq<byte>, data: seq<byte>) {
    if Broken(|data|) then o.m.delivered == m.delivered
    else o.rc == WsOk && o.m.state == Opcode && o.m.delivered == m.delivered + [Delivery(typ, sofar + data)]
  }

  lemma RunLastFragment(m: Machine, f: Frame, stack: Stack)
    requires m.state == Opcode && (IsData(f.opcode) || (f.opcode == 0 && m.fragment))
    requires f.fin && f.key.Unmasked? && |f.payload| < 2 * WS_MAX_CHUNK_SIZE
    ensures Parsed(m, Run(m, Print(f, stack)), MessageType(m, f), Sofar(m, f), f.payload)
  {
    if |f.payload| == 65535 {
      LongestFragmentIsLost(m, f, stack);
    } else {
      PrintIsEncode(f, stack);
      RunFrame(m, f);
    }
  }

  lemma RunEarlierFragment(m: Machine, f: Frame, stack: Stack)
    requires m.state == Opcode && (IsData(f.opcode) || (f.opcode == 0 && m.fragment))
    requires !f.fin && f.key.Unmasked? && |f.payload| == WS_MAX_CHUNK_SIZE
    ensures var o := Run(m, Print(f, stack));
            && o.rc == WsOk && o.m.state == Opcode && o.m.fragment && o.m.delivered == m.delivered
            && o.m.data == Sofar(m, f) + f.payload && o.m.dataType == MessageType(m, f)
  {
    PrintIsEncode(f, stack);
    RunFrame(m, f);
  }

  lemma ParsedLater(m: Machine, m1: Machine, o: Outcome, typ: byte, sofar: seq<byte>, chunk: seq<byte>, rest: seq<byte>)
    requires |chunk| == WS_MAX_CHUNK_SIZE <= |rest| && m1.delivered == m.delivered
    requires Parsed(m1, o, typ, sofar + chunk, rest)
    ensures Parsed(m, o, typ, sofar, chunk + rest)
  {
    BrokenTail(|chunk + rest|);
    Assoc(sofar, chunk, rest);
  }

  lemma {:induction false} RunFragments(m: Machine, data: seq<byte>, opcode: byte, stack: Stack)
    requires m.state == Opcode && (IsData(opcode) || (opcode == 0 && m.fragment))
    ensures Parsed(m, Run(m, PrintAll(Fragments(data, opcode), stack)),
                   if opcode == 0 then m.dataType else opcode, if opcode == 0 then m.data else [], data)
    decreases |data|
  {
    var fs := Fragments(data, opcode);
    var f := fs[0];
    if |data| < 2 * WS_MAX_CHUNK_SIZE {
      assert fs[1..] == [] && Print(f, stack) + [] == Print(f, stack);
      RunLastFragment(m, f, stack);
    } else {
      var rest := data[WS_MAX_CHUNK_SIZE..];
      assert fs[1..] == Fragments(rest, 0);
      RunEarlierFragment(m, f, stack);
      var m1 := Run(m, Print(f, stack)).m;
      RunSplit(m, Print(f, stack), PrintAll(fs[1..], stack));
      RunFragments(m1, rest, 0, stack);
      assert data == f.payload + rest;
      ParsedLater(m, m1, Run(m1, PrintAll(fs[1..], stack)), MessageType(m, f), Sofar(m, f), f.payload, rest);
    }
  }

  /**
   Print then parse. The client's parser, at a frame boundary and otherwise in any state, gets the
   message back if and only if its length is not in the broken class; in that class it gets nothing.
   */
  lemma RoundTrip(m: Machine, data: seq<byte>, typ: byte, stack: Stack)
    requires m.state == Opcode && IsData(typ)
    ensures var o := Run(m, PrintAll(Fragments(data, typ), stack));
            && (!Broken(|data|) <==> o.m.delivered == m.delivered + [Delivery(typ, data)])
            && (Broken(|data|) <==> o.m.delivered == m.delivered)
            && (!Broken(|data|) ==> o.rc == WsOk && o.m.state == Opcode)
  {
    RunFragments(m, data, typ, stack);
    assert [] + data == data;
  }

  lemma ControlOpens(m: Machine, b: byte, typ: byte)
    requires m.state == Opcode && IsControl(typ) && b == 128 + typ
    ensures Step(m, b).rc == WsOk
    ensures var m1 := Step(m, b).m; m1.state == Length && m1.control && m1.delivered == m.delivered
  {
    assert b % 16 == typ && b / 16 % 8 == 0;
  }

  lemma FragmentedRefused(m: Machine, b: byte)
    requires m.state == Opcode && IsControl(b)
    ensures Step(m, b).rc == FragmentedControl && Step(m, b).m.delivered == m.delivered
  {
    assert b % 16 == b && b / 16 % 8 == 0;
  }

  /** A control opcode without FIN, or with an extended length, is refused. */
  lemma RefusedControl(m: Machine, bytes: seq<byte>, typ: byte)
    requires m.state == Opcode && IsControl(typ) && |bytes| >= 2
    requires bytes[0] == typ || (bytes[0] == 128 + typ && 126 <= bytes[1] < 128)
    ensures var o := Run(m, bytes);
            o.m.delivered == m.delivered && (o.rc == ControlTooLong || o.rc == FragmentedControl)
  {
    var b, rest := bytes[0], bytes[1..];
    assert bytes == [b] + rest;
    if b == typ {
      FragmentedRefused(m, b);
    } else {
      ControlOpens(m, b, typ);
      RunOne(m, b, rest, Step(m, b).m);
      assert rest[0] % 128 >= 126;
    }
  }

  /** A control frame comes back if and only if it has at most 125 octets; longer ones are refused. */
  lemma ControlRoundTrip(m: Machine, data: seq<byte>, typ: byte, stack: Stack)
    requires m.state == Opcode && IsControl(typ)
    ensures var o := Run(m, PrintAll(Fragments(data, typ), stack));
            && (|data| <= 125 <==> o.m.delivered == m.delivered + [Delivery(typ, data)])
            && (|data| > 125 <==> o.rc == ControlTooLong || o.rc == FragmentedControl)
  {
    var fs := Fragments(data, typ);
    var f := fs[0];
    if |data| <= 125 {
      assert fs[1..] == [] && Print(f, stack) + [] == Print(f, stack);
      PrintIsEncode(f, stack);
      RunFrame(m, f);
    } else {
      RefusedControl(m, PrintAll(fs, stack), typ);
    }
  }
}
