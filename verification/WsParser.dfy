/**
 The frame parser as the server runs it: fields updated in place, a whole read buffer per call,
 payload taken in chunks and unmasked inside the buffer, and the message assembler behind the callbacks.
 */
module WsParser {
  import opened Bytes
  import opened WsMachine

  /** A data message longer than this makes the server hang up. */
  const MAX_DATA_FRAME_SIZE := 1024 * 1000 * 8
  const WS_MAX_CONTROL_FRAME_SIZE := 1024

  /** The payload callback made for the next octet finds the message buffer over the limit. */
  predicate Exceeds(m: Machine) {
    m.state.Payload? && !m.control && |m.data| + (if m.remaining == 0 then 0 else 1) > MAX_DATA_FRAME_SIZE
  }

  /** Stepping through `bytes` makes the message buffer exceed the limit at some octet. */
  predicate Overflows(m: Machine, bytes: seq<byte>)
    decreases |bytes|
  {
    bytes != [] &&
    (Exceeds(m) || (Step(m, bytes[0]).rc == WsOk && Overflows(Step(m, bytes[0]).m, bytes[1..])))
  }

  /** A step makes the message buffer pass the limit just if the look made for it finds so. */
  lemma PassesExactly(m: Machine, b: byte)
    requires |m.data| <= 8192000
    ensures Exceeds(m) <==> Step(m, b).rc == WsOk && |Step(m, b).m.data| > 8192000
  {
    assert Settle(m).data == m.data;
    if Settle(m).state.Payload? {
      assert |Clear(Settle(m), [b])| == 1;
    }
  }

  lemma RefusalKeepsData(m: Machine, b: byte)
    requires Step(m, b).rc != WsOk
    ensures Step(m, b).m.data == m.data
  {
    assert Settle(m).data == m.data;
  }

  lemma {:induction false} NoOverflowBound(m: Machine, bytes: seq<byte>)
    requires |m.data| <= 8192000 && !Overflows(m, bytes)
    ensures |Run(m, bytes).m.data| <= 8192000
    decreases |bytes|
  {
    if bytes != [] {
      PassesExactly(m, bytes[0]);
      if Step(m, bytes[0]).rc == WsOk {
        NoOverflowBound(Step(m, bytes[0]).m, bytes[1..]);
      } else {
        RefusalKeepsData(m, bytes[0]);
      }
    }
  }

  /** After the first `n` octets, all taken, the message buffer is over the limit. */
  predicate OverAt(m: Machine, bytes: seq<byte>, n: int)
    requires 0 <= n <= |bytes|
  {
    Run(m, bytes[..n]).rc == WsOk && |Run(m, bytes[..n]).m.data| > 8192000
  }

  lemma OverNext(m: Machine, bytes: seq<byte>, n: nat)
    requires 0 < n <= |bytes|
    ensures OverAt(m, bytes, n) <==> Step(m, bytes[0]).rc == WsOk && OverAt(Step(m, bytes[0]).m, bytes[1..], n - 1)
  {
    assert bytes[..n][0] == bytes[0] && bytes[..n][1..] == bytes[1..][..n - 1];
  }

  /** No message is cut off that is within the limit: the size callback is made just if the buffer passes it. */
  lemma {:induction false} OverflowsExactly(m: Machine, bytes: seq<byte>)
    requires |m.data| <= 8192000
    ensures Overflows(m, bytes) <==> exists n :: 0 <= n <= |bytes| && OverAt(m, bytes, n)
    decreases |bytes|
  {
    assert !OverAt(m, bytes, 0);
    if bytes != [] {
      var o := Step(m, bytes[0]);
      PassesExactly(m, bytes[0]);
      OverNext(m, bytes, 1);
      if o.rc == WsOk && |o.m.data| <= 8192000 {
        OverflowsExactly(o.m, bytes[1..]);
        if k :| 0 <= k <= |bytes[1..]| && OverAt(o.m, bytes[1..], k) {
          OverNext(m, bytes, k + 1);
          assert OverAt(m, bytes, k + 1);
        }
        if n :| 0 <= n <= |bytes| && OverAt(m, bytes, n) {
          OverNext(m, bytes, n);
          assert OverAt(o.m, bytes[1..], n - 1);
        }
      } else if o.rc == WsOk {
        assert OverAt(m, bytes, 1);
      } else if n :| 0 <= n <= |bytes| && OverAt(m, bytes, n) {
        OverNext(m, bytes, n);
      }
    }
  }

  /** A WebSocket connection: its parser, and whether it has been shut down. */
  datatype Session = Session(m: Machine, down: bool)

  /** One read. A shut down connection reads nothing; the size callback shuts it down, and so may anything else. */
  function Read(s: Session, bytes: seq<byte>, otherReason: bool): (r: Session) {
    if s.down then s else Session(Run(s.m, bytes).m, otherReason || Overflows(s.m, bytes))
  }

  function ReadAll(s: Session, inputs: seq<(seq<byte>, bool)>): (r: Session)
    decreases |inputs|
  {
    if inputs == [] then s else ReadAll(Read(s, inputs[0].0, inputs[0].1), inputs[1..])
  }

  /**
   However the peer frames its data, and through any errors the caller ignores, the message buffer
   stays within one read, of at most 512 octets, of its limit and a control payload within 125 octets.
   */
  lemma {:induction false} ReadAllBounded(s: Session, inputs: seq<(seq<byte>, bool)>)
    requires Sane(s.m) && (!s.down ==> |s.m.data| <= 8192000) && |s.m.data| <= 8192512
    requires forall k :: 0 <= k < |inputs| ==> |inputs[k].0| <= 512
    ensures |ReadAll(s, inputs).m.data| <= 8192512
    ensures !ReadAll(s, inputs).down ==> |ReadAll(s, inputs).m.data| <= 8192000
    ensures |ReadAll(s, inputs).m.controlData| <= 125
    decreases |inputs|
  {
    if inputs != [] {
      var bytes := inputs[0].0;
      RunSane(s.m, bytes);
      if !s.down && !Overflows(s.m, bytes) {
        NoOverflowBound(s.m, bytes);
      }
      ReadAllBounded(Read(s, bytes, inputs[0].1), inputs[1..]);
    }
  }

  /** Over a chunk of payload the buffer only grows, so looking once at its end is enough. */
  lemma {:induction false} OverflowsBulk(m: Machine, p: seq<byte>, rest: seq<byte>)
    requires m.state.Payload? && 0 < |p| <= m.remaining
    ensures Overflows(m, p + rest) <==>
            (!m.control && |m.data| + |p| > MAX_DATA_FRAME_SIZE) || Overflows(Finish(Absorb(m, p)), rest)
    decreases |p|
  {
    var all := p + rest;
    assert all[0] == p[0] && all[1..] == p[1..] + rest;
    var m1 := Absorb(m, [p[0]]);
    assert p == [p[0]] + p[1..];
    AbsorbSplit(m, [p[0]], p[1..]);
    if p[1..] == [] {
      assert all[1..] == rest && p == [p[0]];
    } else {
      OverflowsBulk(m1, p[1..], rest);
    }
  }

  /** Where a call stands after the first `i` octets: machine `m`, buffer prefix `done`, size callback made or not. */
  ghost predicate Reached(start: Machine, input: seq<byte>, i: nat, m: Machine, done: seq<byte>, over: bool) {
    && i <= |input|
    && Run(start, input) == Run(m, input[i..])
    && RunBuffer(start, input) == done + RunBuffer(m, input[i..])
    && (Overflows(start, input) <==> over || Overflows(m, input[i..]))
  }

  /** The machine `m` with `p + rest` ahead does what `r` with `rest` ahead does, `clear` being left in the buffer. */
  ghost predicate Consumes(m: Machine, p: seq<byte>, rest: seq<byte>, r: Machine, clear: seq<byte>, over: bool) {
    && Run(m, p + rest) == Run(r, rest)
    && RunBuffer(m, p + rest) == clear + RunBuffer(r, rest)
    && (Overflows(m, p + rest) <==> over || Overflows(r, rest))
  }

  lemma CutAt<T>(s: seq<T>, i: nat, n: nat)
    requires i + n <= |s|
    ensures s[i..] == s[i..i + n] + s[i + n..]
  {}

  lemma Progress(start: Machine, input: seq<byte>, i: nat, n: nat, m: Machine, done: seq<byte>, over: bool,
                 r: Machine, clear: seq<byte>, overNow: bool)
    requires i + n <= |input| && Reached(start, input, i, m, done, over)
    requires Consumes(m, input[i..i + n], input[i + n..], r, clear, overNow)
    ensures Reached(start, input, i + n, r, done + clear, over || overNow)
  {
    CutAt(input, i, n);
    Assoc(done, clear, RunBuffer(r, input[i + n..]));
  }

  lemma HeaderProgress(start: Machine, input: seq<byte>, i: nat, m: Machine, done: seq<byte>, over: bool)
    requires i < |input| && Reached(start, input, i, m, done, over) && !m.state.Payload?
    ensures var o := Step(m, input[i]);
            if o.rc == WsOk then Reached(start, input, i + 1, o.m, done + [input[i]], over)
            else
              && Run(start, input) == o && RunBuffer(start, input) == done + input[i..]
              && (Overflows(start, input) <==> over)
  {
    var rest := input[i..];
    assert rest[0] == input[i] && rest[1..] == input[i + 1..];
    if Step(m, input[i]).rc == WsOk {
      var tail := RunBuffer(Step(m, input[i]).m, input[i + 1..]);
      assert done + ([input[i]] + tail) == done + [input[i]] + tail;
    }
  }

  lemma ChunkStep(m: Machine, p: seq<byte>, rest: seq<byte>)
    requires m.state.Payload? && |p| <= m.remaining && p + rest != [] && (p == [] ==> m.remaining == 0)
    ensures var r := Finish(Absorb(m, p));
            Consumes(m, p, rest, r, Clear(m, p), !m.control && |m.data| + |p| > MAX_DATA_FRAME_SIZE)
  {
    if p == [] {
      assert p + rest == rest;
      assert m.data + [] == m.data && m.controlData + [] == m.controlData;
      assert Absorb(m, p) == m;
      assert Step(m, rest[0]) == Step(Settle(m), rest[0]);
    } else {
      RunSplit(m, p, rest);
      RunBufferSplit(m, p, rest);
      BulkPayload(m, p);
      BulkBuffer(m, p);
      OverflowsBulk(m, p, rest);
    }
  }

  lemma ChunkProgress(start: Machine, input: seq<byte>, i: nat, n: nat, m: Machine, done: seq<byte>, over: bool,
                      r: Machine, doneNow: seq<byte>, overNow: bool)
    requires i < |input| && Reached(start, input, i, m, done, over) && m.state.Payload?
    requires n == if m.remaining < |input| - i then m.remaining else |input| - i
    requires r == Finish(Absorb(m, input[i..i + n])) && doneNow == done + Clear(m, input[i..i + n])
    requires overNow <==> over || (!m.control && |m.data| + n > MAX_DATA_FRAME_SIZE)
    ensures Reached(start, input, i + n, r, doneNow, overNow)
  {
    var p, rest := input[i..i + n], input[i + n..];
    ChunkStep(m, p, rest);
    Progress(start, input, i, n, m, done, over, r, Clear(m, p), !m.control && |m.data| + n > MAX_DATA_FRAME_SIZE);
  }

  lemma AbsorbSane(m: Machine, p: seq<byte>)
    requires Sane(m) && m.state.Payload? && |p| <= m.remaining
    ensures Sane(Absorb(m, p)) && Sane(Finish(Absorb(m, p)))
  {}

  /** `s` with `c` written over it from index `i` on. */
  ghost function Patch<T>(s: seq<T>, i: nat, c: seq<T>): (r: seq<T>)
    requires i + |c| <= |s|
  {
    s[..i] + c + s[i + |c|..]
  }

  lemma PatchFacts<T>(before: seq<T>, after: seq<T>, input: seq<T>, i: nat, c: seq<T>)
    requires i + |c| <= |before| == |input| && after == Patch(before, i, c)
    requires before[i..] == input[i..]
    ensures before[i..i + |c|] == input[i..i + |c|]
    ensures after[..i + |c|] == before[..i] + c
    ensures after[i + |c|..] == input[i + |c|..]
  {
    assert before[i..i + |c|] == before[i..][..|c|];
    assert after[i + |c|..] == before[i + |c|..] == before[i..][|c|..];
  }

  lemma SliceAgrees<T>(before: seq<T>, input: seq<T>, i: nat, j: nat)
    requires i <= j <= |before| == |input| && before[i..] == input[i..]
    ensures before[i..j] == input[i..j]
  {
    assert before[i..j] == before[i..][..j - i] && input[i..j] == input[i..][..j - i];
  }

  lemma ChunkWritten(start: Machine, input: seq<byte>, i: nat, n: nat, m: Machine, before: seq<byte>, over: bool,
                     r: Machine, after: seq<byte>, overNow: bool, p: seq<byte>, c: seq<byte>)
    requires i < |input| == |before| && Reached(start, input, i, m, before[..i], over) && m.state.Payload?
    requires before[i..] == input[i..]
    requires n == if m.remaining < |input| - i then m.remaining else |input| - i
    requires p == input[i..i + n] && c == Clear(m, p) && r == Finish(Absorb(m, p)) && after == Patch(before, i, c)
    requires overNow <==> over || (!m.control && |m.data| + n > MAX_DATA_FRAME_SIZE)
    ensures Reached(start, input, i + n, r, after[..i + n], overNow)
    ensures after[i + n..] == input[i + n..]
  {
    PatchFacts(before, after, input, i, c);
    ChunkProgress(start, input, i, n, m, before[..i], over, r, after[..i + n], overNow);
  }

  /** A chunk has been read: the buffer was `before` and is `after`. */
  lemma ChunkTaken(start: Machine, input: seq<byte>, i: nat, n: nat, m: Machine, before: seq<byte>, over: bool,
                   r: Machine, after: seq<byte>, overNow: bool, p: seq<byte>)
    requires i < |input| == |before| && Reached(start, input, i, m, before[..i], over) && m.state.Payload?
    requires before[i..] == input[i..]
    requires n == if m.remaining < |input| - i then m.remaining else |input| - i
    requires p == before[i..i + n] && r == Finish(Absorb(m, p)) && after == Patch(before, i, Clear(m, p))
    requires overNow <==> over || (!m.control && |m.data| + n > MAX_DATA_FRAME_SIZE)
    ensures Reached(start, input, i + n, r, after[..i + n], overNow)
    ensures after[i + n..] == input[i + n..]
  {
    SliceAgrees(before, input, i, i + n);
    ChunkWritten(start, input, i, n, m, before, over, r, after, overNow, p, Clear(m, p));
  }

  class Parser {
    var state: State
    var fragment: bool
    var fin: bool
    var control: bool
    var maskFlag: bool
    var maskPos: Index4
    var mask: MaskKey
    var remaining: nat
    var dataType: byte
    var data: seq<byte>
    var controlType: byte
    var controlData: seq<byte>
    var delivered: seq<Delivery>
    var exceeded: nat         // callbacks made with status MAX_DATA_FRAME_SIZE_EXCEEDED
    var controlExceeded: nat  // callbacks made with status MAX_CONTROL_FRAME_SIZE_EXCEEDED

    function View(): (m: Machine)
      reads this
    {
      Machine(state, fragment, fin, control, maskFlag, maskPos, mask, remaining,
              dataType, data, controlType, controlData, delivered)
    }

    ghost predicate Valid()
      reads this
    {
      Sane(View())
    }

    /** The fields the constructor does not set are parameters: they may hold anything. */
    constructor (fin: bool, control: bool, maskFlag: bool, maskPos: Index4, mask: MaskKey, remaining: nat,
                 dataType: byte, controlType: byte)
      ensures Valid() && state == Opcode && !fragment && data == [] && delivered == []
      ensures exceeded == 0 && controlExceeded == 0
    {
      this.state, this.fragment := Opcode, false;
      this.fin, this.control, this.maskFlag, this.maskPos := fin, control, maskFlag, maskPos;
      this.mask, this.remaining, this.dataType, this.controlType := mask, remaining, dataType, controlType;
      data, controlData, delivered, exceeded, controlExceeded := [], [], [], 0, 0;
    }

    method EndPayload()
      modifies this
      ensures View() == EndOfPayload(old(View()))
      ensures exceeded == old(exceeded) && controlExceeded == old(controlExceeded)
    {
      if control {
        delivered := delivered + [Delivery(controlType, controlData)];
      } else if fin {
        delivered := delivered + [Delivery(dataType, data)];
      }
      state := Opcode;
      assert !control && !fin ==> delivered + [] == delivered;
    }

    method OpenControl(opcode: byte) returns (rc: ReturnCode)
      modifies this
      ensures exceeded == old(exceeded) && controlExceeded == old(controlExceeded)
      ensures rc == if !(opcode == PING || opcode == PONG || opcode == CLOSE) then InvalidOpcode
                    else if !old(fin) then FragmentedControl else WsOk
      ensures View() ==
              if rc != WsOk then old(View())
              else old(View()).(control := true, controlData := [], controlType := opcode, state := Length)
    {
      if opcode != PING && opcode != PONG && opcode != CLOSE {
        return InvalidOpcode;
      }
      if !fin {
        return FragmentedControl;
      }
      control := true;
      controlData, controlType := [], opcode;
      state := Length;
      return WsOk;
    }

    method OpenData(opcode: byte) returns (rc: ReturnCode)
      modifies this
      ensures exceeded == old(exceeded) && controlExceeded == old(controlExceeded)
      ensures rc == if opcode == TEXT || opcode == BINARY then WsOk else InvalidOpcode
      ensures View() ==
              if rc != WsOk then old(View())
              else old(View()).(control := false, fragment := !old(fin), data := [], dataType := opcode,
                  state := Length)
    {
      if opcode != TEXT && opcode != BINARY {
        return InvalidOpcode;
      }
      control := false;
      fragment := !fin;
      data, dataType := [], opcode;
      state := Length;
      return WsOk;
    }

    method ReadOpcode(b: byte) returns (rc: ReturnCode)
      modifies this
      ensures Outcome(View(), rc) == OnOpcode(old(View()), b)
      ensures exceeded == old(exceeded) && controlExceeded == old(controlExceeded)
    {
      var opcode: byte := b % 16;
      if b / 16 % 8 != 0 {
        return ReservedBitsSet;
      }
      fin := b >= 128;
      if opcode == 0 {
        if !fragment {
          return InvalidContinuation;
        }
        control := false;
        state := Length;
        return WsOk;
      }
      if opcode >= 8 {
        rc := OpenControl(opcode);
      } else {
        rc := OpenData(opcode);
      }
    }

    /** A length of one octet: the key or the payload follows, or nothing. */
    method TakeLength(length: nat)
      modifies this
      ensures var m := old(View()).(remaining := length, state := AfterLength(old(View())));
              View() == if m.state.Payload? && length == 0 then EndOfPayload(m) else m
      ensures exceeded == old(exceeded) && controlExceeded == old(controlExceeded)
    {
      remaining := length;
      state := if maskFlag then Mask(0) else Payload;
      if state == Payload && remaining == 0 {
        EndPayload();
      }
    }

    method ReadLength(b: byte) returns (rc: ReturnCode)
      modifies this
      ensures Outcome(View(), rc) == OnLength(old(View()), b)
      ensures exceeded == old(exceeded) && controlExceeded == old(controlExceeded)
    {
      var length := b % 128;
      maskFlag := b >= 128;
      maskPos := 0;
      if control {
        if length > 125 {
          return ControlTooLong;
        }
        TakeLength(length);
      } else if length < 126 {
        TakeLength(length);
      } else if length == 126 {
        state := Length16(false);
      } else {
        state := Length64(0);
      }
      return WsOk;
    }

    method ReadExtendedLength(b: byte) returns (rc: ReturnCode)
      requires state.Length16? || state.Length64?
      modifies this
      ensures Outcome(View(), rc) ==
              if old(state).Length16? then OnLength16(old(View()), b) else OnLength64(old(View()), b)
      ensures exceeded == old(exceeded) && controlExceeded == old(controlExceeded)
    {
      match state
      case Length16(half) =>
        if !half {
          remaining := b * 256;
          state := Length16(true);
        } else {
          remaining := remaining + b;
          state := if maskFlag then Mask(0) else Payload;
          if remaining < 126 {
            return NonCanonicalLength;
          }
        }
        return WsOk;
      case Length64(k) =>
        remaining := if k == 0 then b * Weight(0) else remaining + b * Weight(k);
        if k < 7 {
          state := Length64(k + 1);
        } else {
          state := if maskFlag then Mask(0) else Payload;
          if remaining < 65536 {
            return NonCanonicalLength;
          }
        }
        return WsOk;
    }

    method ReadMask(b: byte) returns (rc: ReturnCode)
      requires state.Mask?
      modifies this
      ensures Outcome(View(), rc) == OnMask(old(View()), b)
      ensures exceeded == old(exceeded) && controlExceeded == old(controlExceeded)
    {
      var k := state.pos;
      mask := mask[k := b];
      if k < 3 {
        state := Mask(k + 1);
      } else {
        state := Payload;
        if remaining == 0 {
          EndPayload();
        }
      }
      return WsOk;
    }

    /** One octet of a frame header. */
    method ReadHeader(b: byte) returns (rc: ReturnCode)
      requires Valid() && !state.Payload?
      modifies this
      ensures Valid()
      ensures Outcome(View(), rc) == Step(old(View()), b)
      ensures exceeded == old(exceeded) && controlExceeded == old(controlExceeded)
    {
      StepSane(View(), b);
      match state
      case Opcode => rc := ReadOpcode(b);
      case Length => rc := ReadLength(b);
      case Length16(_) => rc := ReadExtendedLength(b);
      case Length64(_) => rc := ReadExtendedLength(b);
      case Mask(_) => rc := ReadMask(b);
    }

    /** Takes the mask off `n` octets of the buffer, in place. */
    method UnmaskInPlace(buff: array<byte>, i: nat, n: nat)
      requires i + n <= buff.Length && state.Payload? && n <= remaining
      modifies this`maskPos, buff
      ensures buff[i..i + n] == old(Clear(View(), buff[i..i + n]))
      ensures buff[..i] == old(buff[..i]) && buff[i + n..] == old(buff[i + n..])
      ensures maskPos == old(if maskFlag then Advance(maskPos, n) else maskPos)
    {
      if maskFlag {
        ghost var p, pos := buff[i..i + n], maskPos;
        UnmaskOctets(buff, i, n, p);
        assert buff[i..i + n] == Unmask(mask, pos, p);
        assert buff[..i] == old(buff[..i]);
        assert buff[i + n..] == old(buff[i + n..]);
      }
    }

    method UnmaskOctets(buff: array<byte>, i: nat, n: nat, ghost p: seq<byte>)
      requires i + n <= buff.Length && p == buff[i..i + n]
      modifies this`maskPos, buff
      ensures maskPos == Advance(old(maskPos), n)
      ensures forall x :: i <= x < i + n ==> buff[x] == Unmask(mask, old(maskPos), p)[x - i]
      ensures forall x :: 0 <= x < i ==> buff[x] == old(buff[x])
      ensures forall x :: i + n <= x < buff.Length ==> buff[x] == old(buff[x])
    {
      ghost var pos := maskPos;
      var k := 0;
      while k < n
        invariant k <= n && maskPos == Advance(pos, k)
        invariant forall x :: i <= x < i + k ==> buff[x] == Unmask(mask, pos, p)[x - i]
        invariant forall x :: 0 <= x < i ==> buff[x] == old(buff[x])
        invariant forall x :: i + k <= x < buff.Length ==> buff[x] == old(buff[x])
      {
        UnmaskAt(mask, pos, p, k);
        AdvanceSplit(pos, k, 1);
        buff[i + k] := Xor(buff[i + k], mask[maskPos]);
        maskPos := if maskPos == 3 then 0 else maskPos + 1;
        k := k + 1;
      }
    }

    /** The payload callback: append, then look at the size. */
    method Append(chunk: seq<byte>)
      modifies this
      ensures View() == if control then old(View()).(controlData := old(controlData) + chunk)
                        else old(View()).(data := old(data) + chunk)
      ensures old(exceeded) <= exceeded
      ensures exceeded > old(exceeded) <==> !control && |data| > MAX_DATA_FRAME_SIZE
      ensures controlExceeded ==
              old(controlExceeded) + if control && |controlData| > WS_MAX_CONTROL_FRAME_SIZE then 1 else 0
    {
      if control {
        controlData := controlData + chunk;
        if |controlData| > WS_MAX_CONTROL_FRAME_SIZE {
          controlExceeded := controlExceeded + 1;
        }
      } else {
        data := data + chunk;
        if |data| > MAX_DATA_FRAME_SIZE {
          exceeded := exceeded + 1;
        }
      }
    }

    /** `n` octets from index `i` on are unmasked and appended. */
    method TakeChunk(buff: array<byte>, i: nat, n: nat, ghost p: seq<byte>)
      requires i + n <= buff.Length && state.Payload? && n <= remaining && p == buff[..][i..i + n]
      modifies this, buff
      ensures View() == Absorb(old(View()), p) && buff[..] == Patch(old(buff[..]), i, Clear(old(View()), p))
      ensures old(exceeded) <= exceeded
      ensures exceeded > old(exceeded) <==> !old(control) && |old(data)| + n > MAX_DATA_FRAME_SIZE
      ensures controlExceeded ==
              old(controlExceeded) + if control && |controlData| > WS_MAX_CONTROL_FRAME_SIZE then 1 else 0
    {
      assert p == buff[i..i + n];
      UnmaskInPlace(buff, i, n);
      assert buff[..] == buff[..i] + buff[i..i + n] + buff[i + n..];
      Append(buff[i..i + n]);
      remaining := remaining - n;
    }

    /** The payload state: as many octets as the frame still needs and the buffer still has. */
    method ReadPayload(buff: array<byte>, i: nat) returns (n: nat, ghost p: seq<byte>)
      requires Valid() && state.Payload? && i < buff.Length
      modifies this, buff
      ensures Valid()
      ensures n == if old(remaining) < buff.Length - i then old(remaining) else buff.Length - i
      ensures p == old(buff[..])[i..i + n] && View() == Finish(Absorb(old(View()), p))
      ensures buff[..] == Patch(old(buff[..]), i, Clear(old(View()), p))
      ensures old(exceeded) <= exceeded
      ensures exceeded > old(exceeded) <==> !old(control) && |old(data)| + n > MAX_DATA_FRAME_SIZE
      ensures controlExceeded == old(controlExceeded)
    {
      n := buff.Length - i;
      if n > remaining {
        n := remaining;
      }
      ghost var was := View();
      p := buff[..][i..i + n];
      AbsorbSane(was, p);
      TakeChunk(buff, i, n, p);
      if remaining == 0 {
        EndPayload();
      }
    }

    /** The call so far, in the words of the byte machine. */
    ghost predicate At(start: Machine, input: seq<byte>, was: nat, buff: array<byte>, i: nat)
      reads this, buff
    {
      && i <= buff.Length == |input|
      && buff[i..] == input[i..]
      && was <= exceeded
      && Reached(start, input, i, View(), buff[..i], exceeded > was)
    }

    method TakePayload(buff: array<byte>, i: nat, ghost start: Machine, ghost input: seq<byte>, ghost was: nat)
      returns (j: nat)
      requires Valid() && i < buff.Length && At(start, input, was, buff, i) && state.Payload?
      modifies this, buff
      ensures Valid() && At(start, input, was, buff, j) && i <= j
      ensures j == i ==> !state.Payload?
      ensures controlExceeded == old(controlExceeded)
    {
      ghost var m, before, over := View(), buff[..], exceeded > was;
      assert before[..i] == buff[..i] && before[i..] == buff[i..];
      var n;
      ghost var p;
      n, p := ReadPayload(buff, i);
      j := i + n;
      assert buff[..][..j] == buff[..j] && buff[..][j..] == buff[j..];
      ChunkTaken(start, input, i, n, m, before, over, View(), buff[..], exceeded > was, p);
    }

    method TakeHeader(buff: array<byte>, i: nat, ghost start: Machine, ghost input: seq<byte>, ghost was: nat)
      returns (rc: ReturnCode)
      requires Valid() && i < buff.Length && At(start, input, was, buff, i) && !state.Payload?
      modifies this
      ensures Valid()
      ensures rc == WsOk ==> At(start, input, was, buff, i + 1)
      ensures rc != WsOk ==>
                && Run(start, input) == Outcome(View(), rc)
                && RunBuffer(start, input) == buff[..]
                && was <= exceeded
                && (Overflows(start, input) <==> exceeded > was)
      ensures controlExceeded == old(controlExceeded)
    {
      ghost var m, done, over := View(), buff[..i], exceeded > was;
      assert buff[i] == buff[i..][0] == input[i];
      HeaderProgress(start, input, i, m, done, over);
      rc := ReadHeader(buff[i]);
      assert buff[..] == buff[..i] + buff[i..];
      assert buff[..i + 1] == buff[..i] + [buff[i]];
    }

    function InPayload(): (k: nat)
      reads this
    {
      if state.Payload? then 1 else 0
    }

    /** One round of the loop: the payload that is there, or one octet of a header. */
    method TakeNext(buff: array<byte>, i: nat, ghost start: Machine, ghost input: seq<byte>, ghost was: nat)
      returns (j: nat, rc: ReturnCode)
      requires Valid() && i < buff.Length && At(start, input, was, buff, i)
      modifies this, buff
      ensures Valid()
      ensures rc == WsOk ==> At(start, input, was, buff, j) && i <= j && (j == i ==> InPayload() < old(InPayload()))
      ensures rc != WsOk ==>
                && Run(start, input) == Outcome(View(), rc)
                && RunBuffer(start, input) == buff[..]
                && was <= exceeded
                && (Overflows(start, input) <==> exceeded > was)
      ensures controlExceeded == old(controlExceeded)
    {
      if state.Payload? {
        j := TakePayload(buff, i, start, input, was);
        rc := WsOk;
      } else {
        rc := TakeHeader(buff, i, start, input, was);
        j := i + 1;
      }
    }

    /**
     One call with a read buffer. Whatever the chunking, the fields end as the byte machine ends, the
     buffer holds the rewritten octets, and the size callback is made exactly if stepping overflows.
     The measure is lexicographic: a frame left pending with no payload is ended without consuming.
     */
    method Execute(buff: array<byte>) returns (rc: ReturnCode)
      requires Valid()
      modifies this, buff
      ensures Valid()
      ensures Outcome(View(), rc) == Run(old(View()), old(buff[..]))
      ensures buff[..] == RunBuffer(old(View()), old(buff[..]))
      ensures old(exceeded) <= exceeded
      ensures exceeded > old(exceeded) <==> Overflows(old(View()), old(buff[..]))
      ensures controlExceeded == old(controlExceeded)
    {
      ghost var start, input, was := View(), buff[..], exceeded;
      RunSane(start, input);
      var i := 0;
      assert input[0..] == input;
      while i < buff.Length
        invariant At(start, input, was, buff, i)
        invariant Valid()
        invariant controlExceeded == old(controlExceeded)
        decreases buff.Length - i, InPayload()
      {
        i, rc := TakeNext(buff, i, start, input, was);
        if rc != WsOk {
          return;
        }
      }
      assert buff[..i] == buff[..];
      return WsOk;
    }
  }
}
