/**
 `utils/autobuffer.cc`, `Socket::Send` of `socket/unixsocket.cc` and the pending queue of
 `networkmodel/tcpconnection.cc`: bytes handed to a connection are sent once, in order.
 */
module SendQueue {
  import opened Octets
  import opened Sequences
  import opened Chunks

  // -- The line: what is on the wire and what is still to be sent --

  /** `queue` holds the unsent part of each pending packet; `completed` counts the callbacks fired. */
  datatype Line = Line(sent: seq<byte>, queue: seq<seq<byte>>, completed: nat)

  /** One `write` call on the front packet, with whatever number the system returns. */
  function Write(l: Line, n: int): Line {
    if l.queue == [] || l.queue[0] == [] || n <= 0 || n > |l.queue[0]| then l
    else if n == |l.queue[0]| then Line(l.sent + l.queue[0], l.queue[1..], l.completed + 1)
    else Line(l.sent + l.queue[0][..n], l.queue[0 := l.queue[0][n..]], l.completed)
  }

  function Writes(l: Line, results: seq<int>): Line
    decreases |results|
  {
    if results == [] then l else Writes(Write(l, results[0]), results[1..])
  }

  lemma WriteConserves(l: Line, n: int)
    ensures Write(l, n).sent + Flat(Write(l, n).queue) == l.sent + Flat(l.queue)
    ensures Write(l, n).completed + |Write(l, n).queue| == l.completed + |l.queue|
    ensures l.sent <= Write(l, n).sent
  {
    hide Flat;
    if l.queue != [] && l.queue[0] != [] && 0 < n <= |l.queue[0]| {
      var f, rest := l.queue[0], l.queue[1..];
      FlatFront(l.queue);
      if n < |f| {
        var q := l.queue[0 := f[n..]];
        FlatFront(q);
        assert q[1..] == rest;
        assert f == f[..n] + f[n..];
      }
    }
  }

  /** Over every sequence of results, bytes sent and unsent stay the same string, and so do packets. */
  lemma {:induction false} ConservationOverRuns(l: Line, results: seq<int>)
    ensures Writes(l, results).sent + Flat(Writes(l, results).queue) == l.sent + Flat(l.queue)
    ensures Writes(l, results).completed + |Writes(l, results).queue| == l.completed + |l.queue|
    ensures l.sent <= Writes(l, results).sent
    decreases |results|
  {
    if results != [] {
      WriteConserves(l, results[0]);
      ConservationOverRuns(Write(l, results[0]), results[1..]);
    }
  }

  /** Every packet has completed exactly when every byte is on the wire and no packet is left. */
  lemma AllSentWhenDrained(l: Line, results: seq<int>)
    ensures Writes(l, results).queue == [] ==> Writes(l, results).sent == l.sent + Flat(l.queue)
    ensures Writes(l, results).completed == l.completed + |l.queue| <==> Writes(l, results).queue == []
  {
    ConservationOverRuns(l, results);
  }

  /** An empty packet never completes, and nothing behind it is ever sent. */
  lemma {:induction false} EmptyPacketBlocks(l: Line, results: seq<int>)
    requires l.queue != [] && l.queue[0] == []
    ensures Writes(l, results) == l
    decreases |results|
  {
    if results != [] {
      EmptyPacketBlocks(l, results[1..]);
    }
  }

  lemma {:induction false} WritesConcat(l: Line, a: seq<int>, b: seq<int>)
    ensures Writes(l, a + b) == Writes(Writes(l, a), b)
    decreases |a|
  {
    if a == [] {
      assert a + b == b;
    } else {
      assert (a + b)[1..] == a[1..] + b;
      WritesConcat(Write(l, a[0]), a[1..], b);
    }
  }

  lemma NoWrites(l: Line)
    ensures Writes(l, []) == l
  {
  }

  lemma OneMoreWrite(l: Line, a: seq<int>, n: int)
    ensures Writes(l, a + [n]) == Write(Writes(l, a), n)
  {
    WritesConcat(l, a, [n]);
    assert [n][1..] == [];
  }

  /** One `write` call on a packet that is not in the queue; what is left of it goes to the queue's end. */
  function Direct(l: Line, packet: seq<byte>, n: int): Line {
    var r := Write(Line(l.sent, [packet], 0), n);
    Line(r.sent, l.queue + r.queue, l.completed + r.completed)
  }

  /** How much of such a packet the write takes. */
  function Taken(packet: seq<byte>, n: int): (k: nat)
    ensures k <= |packet|
  {
    if 0 < n <= |packet| then n else 0
  }

  /** What a direct write takes goes out before the packets that wait; the rest goes behind them. */
  lemma DirectConserves(l: Line, packet: seq<byte>, n: int)
    ensures var r, k := Direct(l, packet, n), Taken(packet, n);
            && r.sent == l.sent + packet[..k]
            && Flat(r.queue) == Flat(l.queue) + packet[k..]
            && r.completed + |r.queue| == l.completed + |l.queue| + 1
  {
    hide Flat;
    var w := Write(Line(l.sent, [packet], 0), n);
    FlatConcat(l.queue, w.queue);
    FlatNone();
    if w.queue != [] {
      assert w.queue == [packet[Taken(packet, n)..]];
      FlatOne(packet[Taken(packet, n)..]);
    }
  }

  lemma FlatNone()
    ensures Flat<byte>([]) == []
  {
  }

  /** The bytes sent and waiting are those of before, followed by the packet. */
  ghost predicate OrderKept(l: Line, packet: seq<byte>, n: int) {
    var r := Direct(l, packet, n);
    r.sent + Flat(r.queue) == l.sent + Flat(l.queue) + packet
  }

  /** With one result: exactly when what the write takes may change places with what waits. */
  lemma OrderKeptAt(l: Line, packet: seq<byte>, n: int)
    ensures var taken, waiting := packet[..Taken(packet, n)], Flat(l.queue);
            OrderKept(l, packet, n) <==> taken + waiting == waiting + taken
  {
    hide Flat, Direct;
    DirectConserves(l, packet, n);
    var k := Taken(packet, n);
    var taken, waiting, rest := packet[..k], Flat(l.queue), packet[k..];
    assert packet == taken + rest;
    MiddleDecides(l.sent, taken + waiting, waiting + taken, rest);
    assert l.sent + (taken + waiting) + rest == l.sent + taken + (waiting + rest);
    assert l.sent + (waiting + taken) + rest == l.sent + waiting + (taken + rest);
  }

  /** Nothing waits, the packet is empty, or both consist of one and the same byte. */
  ghost predicate OneByteThroughout(waiting: seq<byte>, packet: seq<byte>) {
    forall i, j :: 0 <= i < |waiting| && 0 <= j < |packet| ==> waiting[i] == packet[j]
  }

  /**
   A direct send keeps the order of bytes, whatever its write takes, if and only if nothing waits, the packet is
   empty, or both consist of one and the same byte.
   */
  lemma DirectKeepsOrderIff(l: Line, packet: seq<byte>)
    ensures (forall n: int :: OrderKept(l, packet, n)) <==> OneByteThroughout(Flat(l.queue), packet)
  {
    hide Flat, OrderKept;
    var waiting := Flat(l.queue);
    if OneByteThroughout(waiting, packet) {
      forall n: int
        ensures OrderKept(l, packet, n)
      {
        OrderKeptAt(l, packet, n);
        SameByteCommutes(packet[..Taken(packet, n)], waiting);
      }
    }
    if (forall n: int :: OrderKept(l, packet, n)) && packet != [] && waiting != [] {
      assert OrderKept(l, packet, 1);
      OrderKeptAt(l, packet, 1);
      assert packet[..1] == [packet[0]];
      OneByteCommutes(packet[0], waiting, |waiting| - 1);
      forall i, j | 0 <= i < |waiting| && 0 <= j < |packet|
        ensures waiting[i] == packet[j]
      {
        assert OrderKept(l, packet, j + 1);
        OrderKeptAt(l, packet, j + 1);
        OneByteCommutes(packet[0], waiting, i);
        LastOf(packet[..j + 1], waiting);
      }
    }
  }

  lemma SameByteCommutes(a: seq<byte>, b: seq<byte>)
    requires forall i, j :: 0 <= i < |b| && 0 <= j < |a| ==> b[i] == a[j]
    ensures a + b == b + a
  {
    if a == [] || b == [] {
      assert a + b == b + a;
    } else {
      assert forall i :: 0 <= i < |a| ==> a[i] == b[0];
      assert forall i :: 0 <= i < |b| ==> b[i] == a[0];
      assert forall i :: 0 <= i < |a + b| ==> (a + b)[i] == a[0];
      assert forall i :: 0 <= i < |b + a| ==> (b + a)[i] == a[0];
    }
  }

  lemma {:induction false} OneByteCommutes(c: byte, s: seq<byte>, i: nat)
    requires [c] + s == s + [c] && i < |s|
    ensures s[i] == c
  {
    assert ([c] + s)[i] == (s + [c])[i];
    if i > 0 { OneByteCommutes(c, s, i - 1); }
  }

  lemma LastOf(a: seq<byte>, b: seq<byte>)
    requires a + b == b + a && a != [] && b != []
    ensures a[|a| - 1] == b[|b| - 1]
  {
    assert (a + b)[|a + b| - 1] == (b + a)[|a + b| - 1];
  }

  // -- The buffer --

  const MALLOC_UNIT: nat := 128

  /** `data` is the buffer's own storage, or another buffer's when `shallow`. */
  class AutoBuffer {
    var data: array<byte>
    var shallow: bool
    var pos: nat
    var length: nat
    var capacity: nat

    ghost predicate Valid()
      reads this
    {
      pos <= length <= data.Length && (!shallow ==> capacity == data.Length)
    }

    ghost function Contents(): seq<byte>
      reads this, data
      requires length <= data.Length
    {
      data[..length]
    }

    /** What `Send` still has to write. */
    ghost function Unsent(): seq<byte>
      reads this, data
      requires pos <= length <= data.Length
    {
      data[pos..length]
    }

    constructor ()
      ensures Valid() && fresh(data) && !shallow && pos == 0 && length == 0
    {
      data := new byte[0];
      shallow, pos, length, capacity := false, 0, 0, 0;
    }

    method Reset()
      modifies this
      ensures Valid() && fresh(data) && !shallow && pos == 0 && length == 0 && capacity == 0
    {
      data := new byte[0];
      shallow, pos, length, capacity := false, 0, 0, 0;
    }

    /** `AddCapacity`: whole units, old bytes kept. */
    method AddCapacity(size: nat)
      requires Valid() && !shallow && size > 0
      modifies this
      ensures Valid() && !shallow && fresh(data) && pos == old(pos) && length == old(length)
      ensures Contents() == old(Contents())
      ensures capacity >= old(capacity) + size && (capacity - old(capacity)) % 128 == 0
      ensures capacity < old(capacity) + size + 128
    {
      var more := size;
      if more % MALLOC_UNIT != 0 {
        more := (more / MALLOC_UNIT + 1) * MALLOC_UNIT;
      }
      var bigger := new byte[capacity + more](_ => 0);
      forall i | 0 <= i < length {
        bigger[i] := data[i];
      }
      data := bigger;
      capacity := capacity + more;
    }

    /** `Write`: appends, growing when needed. */
    method Write(bytes: seq<byte>)
      requires Valid() && !shallow
      modifies this, data
      ensures Valid() && !shallow && pos == old(pos)
      ensures data == old(data) || fresh(data)
      ensures Contents() == old(Contents()) + bytes
    {
      if |bytes| == 0 {
        return;
      }
      if capacity < length + |bytes| {
        AddCapacity(length + |bytes| - capacity);
      }
      var at := length;
      forall i | 0 <= i < |bytes| {
        data[at + i] := bytes[i];
      }
      length := length + |bytes|;
    }

    /** `ShallowCopyFrom`: borrows the bytes; the position is left alone. */
    method ShallowCopyFrom(from: array<byte>, len: nat)
      requires pos <= len <= from.Length
      modifies this
      ensures Valid() && shallow && data == from && length == len && pos == old(pos) && capacity == old(capacity)
    {
      data, length, shallow := from, len, true;
    }

    /** The proxy's switch from borrowed bytes to a copy of the part not yet sent. */
    method KeepRest(from: array<byte>, len: nat)
      requires Valid() && data == from && length == len
      modifies this
      ensures Valid() && !shallow && fresh(data) && Unsent() == old(Unsent())
    {
      var nsend := pos;
      ghost var left := Unsent();
      Reset();
      Write(from[nsend..len]);
      assert Unsent() == Contents();
    }
  }

  // -- The socket --

  /** A call of `write`: the bytes it was offered and its answer. */
  datatype Call = Call(offered: seq<byte>, answer: int)

  /** One attempt to send: with an open descriptor and something to send, exactly that is offered, once. */
  ghost predicate Attempt(fd: int, before: seq<Call>, after: seq<Call>, packet: seq<byte>, n: int) {
    if fd > 0 && packet != [] then
      && |after| == |before| + 1 && after[..|before|] == before && after[|before|].offered == packet
      && (n == after[|before|].answer || (n == 0 && after[|before|].answer == -1))
    else after == before && n == 0
  }

  class Wire {
    var sent: seq<byte>
    ghost var calls: seq<Call>

    constructor ()
      ensures sent == [] && calls == []
    {
      sent, calls := [], [];
    }

    /** The `write` system call: it takes any part of what it is offered, or fails. */
    method SysWrite(bytes: seq<byte>) returns (n: int, again: bool)
      modifies this
      ensures -1 <= n <= |bytes|
      ensures sent == old(sent) + (if n > 0 then bytes[..n] else []) && calls == old(calls) + [Call(bytes, n)]
    {
      n :| -1 <= n <= |bytes|;
      calls := calls + [Call(bytes, n)];
      again := *;
      if n > 0 {
        sent := sent + bytes[..n];
      }
    }
  }

  /** `Socket::Send`: done is reported exactly when this call sent the last byte. */
  method Send(fd: int, wire: Wire, buf: AutoBuffer) returns (n: int, done: bool)
    requires buf.Valid()
    modifies wire, buf`pos
    ensures buf.Valid()
    ensures Write(Line(old(wire.sent), [old(buf.Unsent())], 0), n)
         == Line(wire.sent, if done then [] else [buf.Unsent()], if done then 1 else 0)
    ensures Attempt(fd, old(wire.calls), wire.calls, old(buf.Unsent()), n)
  {
    var pos := buf.pos;
    var ntotal := buf.length - pos;
    ghost var was := buf.Unsent();
    done := false;
    if fd <= 0 || ntotal == 0 {
      return 0, false;
    }
    var again;
    n, again := wire.SysWrite(buf.data[pos..buf.length]);
    if n == ntotal {
      buf.pos := buf.length;
      assert was[..n] == was;
      return n, true;
    }
    if n >= 0 || again {
      n := if n > 0 then n else 0;
      buf.pos := buf.pos + n;
      assert buf.Unsent() == was[n..];
    }
  }

  class SendContext {
    const buffer: AutoBuffer

    constructor (buffer: AutoBuffer)
      ensures this.buffer == buffer
    {
      this.buffer := buffer;
    }
  }

  /** The contexts are distinct, and their buffers hold these unsent parts. */
  ghost predicate Holds(q: seq<SendContext>, parts: seq<seq<byte>>)
    reads set i | 0 <= i < |q| :: q[i].buffer
    reads set i | 0 <= i < |q| :: q[i].buffer.data
  {
    && |parts| == |q|
    && (forall i, j :: 0 <= i < j < |q| ==> q[i].buffer != q[j].buffer)
    && (forall i :: 0 <= i < |q| ==> q[i].buffer.Valid() && parts[i] == q[i].buffer.Unsent())
  }

  lemma AsManyParts(q: seq<SendContext>, parts: seq<seq<byte>>)
    requires Holds(q, parts)
    ensures |parts| == |q|
  {
  }

  /** A connection's socket and pending queue. */
  class Connection {
    const fd: int
    const wire: Wire
    var pending: seq<SendContext>
    ghost var parts: seq<seq<byte>>
    ghost var completed: seq<SendContext>

    ghost predicate Valid()
      reads this, set i | 0 <= i < |pending| :: pending[i].buffer
      reads set i | 0 <= i < |pending| :: pending[i].buffer.data
    {
      Holds(pending, parts)
    }

    ghost function View(): Line
      reads this, wire
    {
      Line(wire.sent, parts, |completed|)
    }

    constructor (fd: int)
      ensures Valid() && this.fd == fd && pending == [] && completed == [] && fresh(wire) && wire.sent == []
    {
      this.fd := fd;
      wire := new Wire();
      pending, parts, completed := [], [], [];
    }

    /** One turn of the loop below: the front packet is tried and popped when it finishes. */
    method SendFront() returns (done: bool, ghost n: int)
      requires Valid() && |pending| > 0
      modifies this, wire, pending[0].buffer`pos
      ensures Valid() && View() == Write(old(View()), n)
      ensures Attempt(fd, old(wire.calls), wire.calls, old(parts[0]), n)
      ensures done ==> pending == old(pending)[1..] && completed == old(completed) + [old(pending)[0]]
      ensures done ==> parts == old(parts)[1..]
      ensures !done ==> pending == old(pending) && completed == old(completed)
    {
      var ctx := pending[0];
      ghost var before := View();
      n, done := Send(fd, wire, ctx.buffer);
      FrontOnly(before, n);
      if done {
        completed := completed + [ctx];
        pending, parts := pending[1..], parts[1..];
      } else {
        parts := parts[0 := ctx.buffer.Unsent()];
      }
    }

    /** `TrySendPendingPackets`: drains from the front until a packet does not finish. */
    method TrySendPendingPackets() returns (drained: bool, ghost results: seq<int>)
      requires Valid()
      modifies this, wire, (set c | c in pending :: c.buffer)`pos
      ensures Valid() && View() == Writes(old(View()), results)
      ensures completed + pending == old(completed + pending)
      ensures drained <==> pending == []
      ensures |results| == |completed| - |old(completed)| + if drained then 0 else 1
      ensures fd > 0 && (forall i :: 0 <= i < |old(parts)| ==> old(parts)[i] != []) ==>
                |wire.calls| == |old(wire.calls)| + |results|
    {
      hide Holds, Write, Writes;
      AsManyParts(pending, parts);
      results := [];
      NoWrites(View());
      while |pending| > 0
        invariant Valid() && View() == Writes(old(View()), results)
        invariant completed + pending == old(completed + pending)
        invariant forall c :: c in pending ==> c in old(pending)
        invariant |results| == |completed| - |old(completed)| <= |old(parts)| && parts == old(parts)[|results|..]
        invariant fd > 0 && (forall i :: 0 <= i < |old(parts)| ==> old(parts)[i] != []) ==>
          |wire.calls| == |old(wire.calls)| + |results|
        decreases |pending|
      {
        AsManyParts(pending, parts);
        var done, n := SendFront();
        OneMoreWrite(old(View()), results, n);
        results := results + [n];
        if !done {
          return false, results;
        }
      }
      drained := true;
    }

    /** `TrySendAndMarkPendingIfUndone` on a valid context, which does not look at the queue. */
    method SendOrQueue(ctx: SendContext) returns (done: bool, ghost n: int)
      requires Valid() && ctx.buffer.Valid() && forall c <- pending :: c.buffer != ctx.buffer
      modifies this, wire, ctx.buffer`pos
      ensures Valid() && View() == Direct(old(View()), old(ctx.buffer.Unsent()), n)
      ensures Attempt(fd, old(wire.calls), wire.calls, old(ctx.buffer.Unsent()), n)
      ensures ctx.buffer.Valid() && (!done ==> parts == old(parts) + [ctx.buffer.Unsent()])
      ensures done ==> pending == old(pending) && completed == old(completed) + [ctx]
      ensures !done ==> pending == old(pending) + [ctx] && completed == old(completed)
    {
      n, done := Send(fd, wire, ctx.buffer);
      if done {
        completed := completed + [ctx];
      } else {
        pending, parts := pending + [ctx], parts + [ctx.buffer.Unsent()];
      }
    }

    /**
     The send in the proxy's `HandleHttpResponse`: the upstream bytes are borrowed for the first
     attempt, and what is left is copied, so the packet no longer depends on the upstream buffer.
     */
    method Relay(upstream: AutoBuffer, ctx: SendContext) returns (done: bool, ghost n: int)
      requires Valid() && upstream.Valid()
      requires forall c <- pending :: c.buffer != ctx.buffer
      requires ctx.buffer != upstream && ctx.buffer.Valid() && ctx.buffer.pos == 0
      modifies this, wire, ctx.buffer
      ensures Valid() && View() == Direct(old(View()), old(upstream.Contents()), n)
      ensures Attempt(fd, old(wire.calls), wire.calls, old(upstream.Contents()), n)
      ensures done ==> pending == old(pending) && completed == old(completed) + [ctx]
      ensures !done ==> pending == old(pending) + [ctx] && completed == old(completed)
      ensures !done ==> !ctx.buffer.shallow && fresh(ctx.buffer.data)
    {
      hide Write, Direct, Attempt;
      ctx.buffer.ShallowCopyFrom(upstream.data, upstream.length);
      assert ctx.buffer.Unsent() == upstream.Contents();
      assert Valid();
      done, n := SendOrQueue(ctx);
      if !done {
        ghost var last := |pending| - 1;
        assert pending[last] == ctx && Holds(pending, parts);
        ctx.buffer.KeepRest(upstream.data, upstream.length);
        assert forall i :: 0 <= i < last ==> pending[i].buffer.Valid() && parts[i] == pending[i].buffer.Unsent();
      }
    }
  }

  /** A write looks at the front packet only. */
  lemma FrontOnly(l: Line, n: int)
    requires l.queue != []
    ensures var r := Write(Line(l.sent, [l.queue[0]], 0), n);
            Write(l, n) == Line(r.sent, r.queue + l.queue[1..], l.completed + r.completed)
  {
  }
}
