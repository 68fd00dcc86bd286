/**
 The outgoing side of a plaintext connection: what is written, what the kernel has taken, what waits in
 the buffer, and when the connection goes down.
 */
module WriteBuffer {
  import opened Bytes

  const NET_WRITE_BUFFER_MAX: int := 1024 * 1000 * 8

  /** What `::write` does with the buffer: takes some octets, would block, or fails. */
  datatype Kernel = Takes(n: nat) | WouldBlock | Fails

  /** Why a connection was shut down. */
  datatype Cause = Up | Overflow | WriteError | Drained | Asked

  /**
   `accepted` are the octets the kernel has taken, `submitted` those of all writes that were not refused;
   the source keeps neither. `epollOut` is the EPOLLOUT bit of the watched events.
   */
  datatype Conn = Conn(buffer: seq<byte>, epollOut: bool, down: bool, afterFlush: bool,
                       accepted: seq<byte>, submitted: seq<byte>, cause: Cause)

  const FRESH := Conn([], false, false, false, [], [], Up)

  function Shutdown(c: Conn, cause: Cause): (r: Conn) {
    if c.down then c else c.(down := true, cause := cause)
  }

  /** How many of `len` octets the kernel takes: at least one, at most all. */
  function Taken(k: Kernel, len: nat): (n: nat)
    requires k.Takes? && len > 0
    ensures 0 < n <= len
  {
    if k.n == 0 then 1 else if k.n < len then k.n else len
  }

  function Flush(c: Conn, k: Kernel): (r: Conn) {
    if c.buffer == [] || c.down then c.(epollOut := false)
    else
      match k
      case Fails => Shutdown(c, WriteError)
      case WouldBlock => c.(epollOut := true)
      case Takes(_) =>
        var n := Taken(k, |c.buffer|);
        var r := c.(buffer := c.buffer[n..], accepted := c.accepted + c.buffer[..n], epollOut := n < |c.buffer|);
        if r.buffer == [] && r.afterFlush then Shutdown(r, Drained) else r
  }

  function Write(c: Conn, data: seq<byte>, k: Kernel): (r: Conn) {
    if c.down then c
    else if |c.buffer| + |data| > NET_WRITE_BUFFER_MAX then Shutdown(c.(buffer := []), Overflow)
    else
      var r := c.(buffer := c.buffer + data, submitted := c.submitted + data);
      if r.buffer != [] then Flush(r, k) else r
  }

  function ShutdownAfterFlush(c: Conn): (r: Conn) {
    if c.buffer == [] then Shutdown(c, Drained) else c.(afterFlush := true)
  }

  // ----- what every connection keeps

  /** Nothing is lost, repeated or reordered; the buffer is bounded; EPOLLOUT tells whether it is empty. */
  predicate Inv(c: Conn) {
    && (!c.down ==> c.accepted + c.buffer == c.submitted)
    && c.accepted <= c.submitted
    && |c.buffer| <= NET_WRITE_BUFFER_MAX
    && (!c.down ==> (c.epollOut <==> c.buffer != []))
    && (!c.down && c.afterFlush ==> c.buffer != [])
    && (c.cause == Drained ==> c.buffer == [] && c.accepted == c.submitted)
    && (c.cause == Up <==> !c.down)
  }

  datatype Op = DoWrite(data: seq<byte>, k: Kernel) | DoFlush(k: Kernel) | DoShutdown | DoShutdownAfterFlush

  function Apply(c: Conn, op: Op): (r: Conn) {
    match op
    case DoWrite(data, k) => Write(c, data, k)
    case DoFlush(k) => Flush(c, k)
    case DoShutdown => Shutdown(c, Asked)
    case DoShutdownAfterFlush => ShutdownAfterFlush(c)
  }

  function ApplyAll(c: Conn, ops: seq<Op>): (r: Conn) {
    if ops == [] then c else Apply(ApplyAll(c, ops[..|ops| - 1]), ops[|ops| - 1])
  }

  lemma TakeConserves(c: Conn, n: nat)
    requires n <= |c.buffer|
    ensures c.accepted + c.buffer[..n] + c.buffer[n..] == c.accepted + c.buffer
  {
    assert c.buffer == c.buffer[..n] + c.buffer[n..];
  }

  lemma PrefixOfSum<T>(a: seq<T>, b: seq<T>)
    ensures a <= a + b
  {}

  /** A connection whose octets are all in place, EPOLLOUT aside: the state between append and flush. */
  predicate Conserved(c: Conn) {
    && !c.down && c.cause == Up && |c.buffer| <= NET_WRITE_BUFFER_MAX
    && c.accepted + c.buffer == c.submitted && c.buffer != []
  }

  lemma FlushInv(c: Conn, k: Kernel)
    requires Inv(c) || Conserved(c)
    ensures Inv(Flush(c, k))
  {
    if c.buffer != [] && !c.down {
      PrefixOfSum(c.accepted, c.buffer);
      if k.Takes? {
        var n := Taken(k, |c.buffer|);
        TakeConserves(c, n);
        PrefixOfSum(c.accepted + c.buffer[..n], c.buffer[n..]);
        if n == |c.buffer| {
          assert c.accepted + c.buffer[..n] + [] == c.accepted + c.buffer[..n];
        }
      }
    }
  }

  lemma OpInv(c: Conn, op: Op)
    requires Inv(c)
    ensures Inv(Apply(c, op))
  {
    match op
    case DoWrite(data, k) =>
      if !c.down && |c.buffer| + |data| <= NET_WRITE_BUFFER_MAX {
        var r := c.(buffer := c.buffer + data, submitted := c.submitted + data);
        assert c.accepted + (c.buffer + data) == c.accepted + c.buffer + data;
        if r.buffer != [] {
          FlushInv(r, k);
        } else {
          assert c.submitted + data == c.submitted;
        }
      }
    case DoFlush(k) => FlushInv(c, k);
    case DoShutdown =>
    case DoShutdownAfterFlush => assert c.accepted + [] == c.accepted;
  }

  lemma {:induction false} ApplyAllInv(ops: seq<Op>)
    ensures Inv(ApplyAll(FRESH, ops))
  {
    if ops != [] {
      ApplyAllInv(ops[..|ops| - 1]);
      OpInv(ApplyAll(FRESH, ops[..|ops| - 1]), ops[|ops| - 1]);
    }
  }

  function Written(ops: seq<Op>): (r: seq<byte>) {
    if ops == [] then []
    else Written(ops[..|ops| - 1]) + if ops[|ops| - 1].DoWrite? then ops[|ops| - 1].data else []
  }

  lemma SubmittedStep(c: Conn, op: Op)
    requires !Apply(c, op).down
    ensures !c.down && Apply(c, op).submitted == c.submitted + if op.DoWrite? then op.data else []
  {
    assert c.submitted + [] == c.submitted;
  }

  /** While a connection is up, every write so far has been taken into account. */
  lemma {:induction false} SubmittedIsWritten(ops: seq<Op>)
    requires !ApplyAll(FRESH, ops).down
    ensures ApplyAll(FRESH, ops).submitted == Written(ops)
  {
    if ops != [] {
      var c, op := ApplyAll(FRESH, ops[..|ops| - 1]), ops[|ops| - 1];
      SubmittedStep(c, op);
      SubmittedIsWritten(ops[..|ops| - 1]);
    }
  }

  /**
   Conservation over whole runs of writes, flushes and shutdowns with any kernel behaviour: while the
   connection is up, what the kernel has taken followed by the buffer is exactly what was written.
   */
  lemma StreamConserved(ops: seq<Op>)
    ensures var c := ApplyAll(FRESH, ops);
            && (!c.down ==> c.accepted + c.buffer == Written(ops) && (c.epollOut <==> c.buffer != []))
            && |c.buffer| <= NET_WRITE_BUFFER_MAX
            && (c.cause == Drained ==> c.accepted == c.submitted)
  {
    ApplyAllInv(ops);
    if !ApplyAll(FRESH, ops).down {
      SubmittedIsWritten(ops);
    }
  }

  /** A pending shutdown-after-flush fires with the flush that empties the buffer, and with no other. */
  lemma PendingShutdownFires(c: Conn, k: Kernel)
    requires Inv(c) && !c.down && c.afterFlush
    ensures Flush(c, k).cause == Drained <==> k.Takes? && Taken(k, |c.buffer|) == |c.buffer|
    ensures Flush(c, k).down ==> k.Fails? || Flush(c, k).accepted == c.submitted
  {
    if k.Takes? {
      TakeConserves(c, Taken(k, |c.buffer|));
      if Taken(k, |c.buffer|) == |c.buffer| {
        assert c.buffer[..|c.buffer|] == c.buffer;
      }
    }
  }

  // ----- when a connection goes down

  /** The kernel takes all of `len` octets. */
  predicate TakesAll(k: Kernel, len: nat) { k.Takes? && (k.n >= len || len == 1) }

  /** What is written to the kernel by an operation: the octets buffered then, if it tries. */
  function Offered(c: Conn, op: Op): (r: seq<byte>) {
    match op
    case DoWrite(data, _) => if |c.buffer| + |data| <= 8192000 then c.buffer + data else []
    case DoFlush(_) => c.buffer
    case _ => []
  }

  function KernelOf(op: Op): (k: Kernel) { if op.DoWrite? || op.DoFlush? then op.k else WouldBlock }

  /**
   Exactly what takes a connection down: asking for it; asking for it after a flush with nothing buffered; a write
   that brings the buffer above the limit; a kernel error; and the flush that drains the buffer when a shutdown
   is pending.
   */
  predicate TakesDown(c: Conn, op: Op) {
    || op.DoShutdown?
    || (op.DoShutdownAfterFlush? && c.buffer == [])
    || (op.DoWrite? && |c.buffer| + |op.data| > 8192000)
    || (Offered(c, op) != [] && KernelOf(op).Fails?)
    || (Offered(c, op) != [] && TakesAll(KernelOf(op), |Offered(c, op)|) && c.afterFlush)
  }

  lemma GoesDown(c: Conn, op: Op)
    requires Inv(c)
    ensures Apply(c, op).down <==> c.down || TakesDown(c, op)
  {}

  /** How many of `len` octets offered the kernel takes. */
  function TakenFrom(k: Kernel, len: nat): (n: nat)
    ensures n <= len
  {
    match k
    case Takes(n) => if len == 0 then 0 else if n == 0 then 1 else if n < len then n else len
    case _ => 0
  }

  lemma FlushTakes(c: Conn, k: Kernel)
    requires !c.down
    ensures var r, n := Flush(c, k), TakenFrom(k, |c.buffer|);
            r.accepted == c.accepted + c.buffer[..n] && r.buffer == c.buffer[n..] && r.afterFlush == c.afterFlush
  {
    assert c.accepted + [] == c.accepted;
  }

  /** The octets taken are the first of those offered; the others stay, but for an overflow, which drops them. */
  lemma TakesFirst(c: Conn, op: Op)
    requires Inv(c) && !c.down
    ensures var r, n := Apply(c, op), TakenFrom(KernelOf(op), |Offered(c, op)|);
            && r.accepted == c.accepted + Offered(c, op)[..n]
            && (op.DoWrite? || op.DoFlush? ==> r.buffer == Offered(c, op)[n..])
            && (op.DoShutdown? || op.DoShutdownAfterFlush? ==> r.buffer == c.buffer)
            && r.afterFlush == (c.afterFlush || (op.DoShutdownAfterFlush? && c.buffer != []))
  {
    assert c.accepted + [] == c.accepted;
    match op
    case DoWrite(data, k) => FlushTakes(c.(buffer := c.buffer + data, submitted := c.submitted + data), k);
    case DoFlush(k) => FlushTakes(c, k);
    case _ =>
  }

  /** Once down, a connection stays down, and neither sends nor buffers any more. */
  lemma StaysDown(c: Conn, op: Op)
    requires c.down
    ensures var r := Apply(c, op);
            && r.down && r.cause == c.cause
            && r.accepted == c.accepted && r.submitted == c.submitted && r.buffer == c.buffer
  {}

  /** Operation `i` of a run takes the connection down. */
  predicate DownAt(ops: seq<Op>, i: int)
    requires 0 <= i < |ops|
  {
    TakesDown(ApplyAll(FRESH, ops[..i]), ops[i])
  }

  lemma DownNext(ops: seq<Op>, n: nat)
    requires n < |ops|
    ensures ApplyAll(FRESH, ops[..n + 1]).down <==> ApplyAll(FRESH, ops[..n]).down || DownAt(ops, n)
  {
    assert ops[..n + 1][..n] == ops[..n];
    ApplyAllInv(ops[..n]);
    GoesDown(ApplyAll(FRESH, ops[..n]), ops[n]);
  }

  lemma {:induction false} AnySoFar(downs: seq<bool>, dead: seq<bool>, n: nat)
    requires |dead| == |downs| + 1 && n <= |downs| && !dead[0]
    requires forall i :: 0 <= i < |downs| ==> (dead[i + 1] <==> dead[i] || downs[i])
    ensures dead[n] <==> exists i :: 0 <= i < n && downs[i]
  {
    if n > 0 {
      AnySoFar(downs, dead, n - 1);
      assert dead[(n - 1) + 1] <==> dead[n - 1] || downs[n - 1];
    }
  }

  /** After `n` operations a connection is down just if one of them has taken it down. */
  lemma DownExactly(ops: seq<Op>, n: nat)
    requires n <= |ops|
    ensures ApplyAll(FRESH, ops[..n]).down <==> exists i :: 0 <= i < n && DownAt(ops, i)
  {
    var downs := seq(|ops|, i requires 0 <= i < |ops| => DownAt(ops, i));
    var dead := seq(|ops| + 1, i requires 0 <= i <= |ops| => ApplyAll(FRESH, ops[..i]).down);
    forall i | 0 <= i < |downs| ensures dead[i + 1] <==> dead[i] || downs[i] {
      DownNext(ops, i);
    }
    AnySoFar(downs, dead, n);
    assert forall i :: 0 <= i < n ==> downs[i] == DownAt(ops, i);
  }

  lemma {:induction false} NonePending(ops: seq<Op>)
    requires forall i :: 0 <= i < |ops| ==> !ops[i].DoShutdownAfterFlush?
    ensures !ApplyAll(FRESH, ops).afterFlush
  {
    if ops != [] {
      NonePending(ops[..|ops| - 1]);
    }
  }

  /**
   So what is written arrives: if nothing asks for a shutdown, the kernel never fails, and no write brings what is
   buffered above the limit, the connection is up, and what the kernel has taken followed by the buffer is
   everything written.
   */
  lemma WritesArrive(ops: seq<Op>)
    requires forall i :: 0 <= i < |ops| ==> (ops[i].DoWrite? || ops[i].DoFlush?) && !KernelOf(ops[i]).Fails?
    requires forall i :: 0 <= i < |ops| && ops[i].DoWrite? ==>
               |ApplyAll(FRESH, ops[..i]).buffer| + |ops[i].data| <= 8192000
    ensures var c := ApplyAll(FRESH, ops); !c.down && c.accepted + c.buffer == Written(ops)
  {
    forall i | 0 <= i < |ops| ensures !DownAt(ops, i) {
      NonePending(ops[..i]);
    }
    DownExactly(ops, |ops|);
    assert ops[..|ops|] == ops;
    StreamConserved(ops);
  }

  // ----- the connection object

  class Connection {
    var writeBuffer: seq<byte>
    var epollOut: bool
    var isShutdown: bool
    var isShutdownAfterFlush: bool
    ghost var accepted: seq<byte>
    ghost var submitted: seq<byte>
    ghost var cause: Cause

    ghost function View(): (c: Conn)
      reads this
    {
      Conn(writeBuffer, epollOut, isShutdown, isShutdownAfterFlush, accepted, submitted, cause)
    }

    ghost predicate Valid()
      reads this
    {
      Inv(View())
    }

    constructor ()
      ensures Valid() && View() == FRESH
    {
      writeBuffer, epollOut, isShutdown, isShutdownAfterFlush := [], false, false, false;
      accepted, submitted, cause := [], [], Up;
    }

    /** Drops octets from the front; returns how many are left. */
    method PruneWriteBuffer(bytes: nat) returns (left: nat)
      modifies this`writeBuffer
      ensures writeBuffer == if bytes >= |old(writeBuffer)| then [] else old(writeBuffer)[bytes..]
      ensures left == |writeBuffer|
    {
      if |writeBuffer| < 1 {
        return 0;
      }
      if bytes >= |writeBuffer| {
        writeBuffer := [];
        return 0;
      }
      writeBuffer := writeBuffer[bytes..];
      return |writeBuffer|;
    }

    method ShutdownNow(ghost why: Cause)
      modifies this`isShutdown, this`cause
      ensures View() == Shutdown(old(View()), why)
    {
      if !isShutdown {
        isShutdown := true;
        cause := why;
      }
    }

    method FlushSendBuffer(k: Kernel)
      modifies this
      ensures View() == Flush(old(View()), k)
    {
      if writeBuffer == [] || isShutdown {
        epollOut := false;
        return;
      }
      match k {
        case Fails => ShutdownNow(WriteError);
        case WouldBlock => epollOut := true;
        case Takes(_) =>
          var ret := Taken(k, |writeBuffer|);
          accepted := accepted + writeBuffer[..ret];
          if ret < |writeBuffer| {
            var _ := PruneWriteBuffer(ret);
            epollOut := true;
          } else {
            epollOut := false;
            writeBuffer := [];
          }
      }
      if writeBuffer == [] && isShutdownAfterFlush {
        ShutdownNow(Drained);
      }
    }

    method WriteData(data: seq<byte>, k: Kernel)
      requires Valid()
      modifies this
      ensures Valid() && View() == Apply(old(View()), DoWrite(data, k))
    {
      OpInv(View(), DoWrite(data, k));
      if isShutdown {
        return;
      }
      if |writeBuffer| + |data| > NET_WRITE_BUFFER_MAX {
        writeBuffer := [];
        ShutdownNow(Overflow);
        return;
      }
      writeBuffer := writeBuffer + data;
      submitted := submitted + data;
      if writeBuffer != [] {
        FlushSendBuffer(k);
      }
    }

    method RequestShutdownAfterFlush()
      requires Valid()
      modifies this
      ensures Valid() && View() == Apply(old(View()), DoShutdownAfterFlush)
    {
      OpInv(View(), DoShutdownAfterFlush);
      if writeBuffer == [] {
        ShutdownNow(Drained);
        return;
      }
      isShutdownAfterFlush := true;
    }
  }
}
