/**
 * The circular buffer: bulk copies in and out that stop at the end of the array and go round,
 * against a queue of at most size - 1 bytes.
 */
module RingBuffer {
  import opened Basics
  import opened Types

  // Sizes are unsigned int, counts int.
  const INT_MAX := 0x7FFF_FFFF

  // The bytes stored in b from head round to tail.
  function Stored(b: seq<byte>, head: nat, tail: nat): seq<byte>
    requires head < |b| && tail < |b|
  {
    if head <= tail then b[head..tail] else b[head..] + b[..tail]
  }

  // The contents are behind a key (see README): the loops work with the queue alone.
  ghost predicate LookRing(k: int) {
    true
  }

  // ring_buffer_t.
  class Ring {
    var size: nat
    var head: nat
    var tail: nat
    var buffer: array<byte>

    // The bytes stored, the oldest first.
    ghost var queue: seq<byte>

    ghost predicate Valid()
      reads this, buffer
    {
      && buffer.Length == size <= INT_MAX && head < size && tail < size
      && |queue| == (if head <= tail then tail - head else size + tail - head)
      && forall k :: LookRing(k) ==> queue == Stored(buffer[..], head, tail)
    }

    /** ring_buf_alloc. */
    constructor (dataLen: nat)
      requires 0 < dataLen <= INT_MAX
      ensures Valid() && fresh(buffer) && size == dataLen && queue == []
    {
      buffer := new byte[dataLen];
      size, head, tail, queue := dataLen, 0, 0, [];
    }

    /** ring_buf_clear. */
    method Clear()
      requires Valid()
      modifies `head, `tail, `queue
      ensures Valid() && queue == []
    {
      head, tail, queue := 0, 0, [];
    }

    /** ring_buf_empty. */
    predicate Empty()
      requires Valid()
      reads this, buffer
      ensures Empty() <==> queue == []
    {
      tail == head
    }

    /** ring_buf_full: one place is left free, so that a full buffer differs from an empty one. */
    predicate Full()
      requires Valid()
      reads this, buffer
      ensures Full() <==> |queue| == size - 1
    {
      NextPlace(tail, size);
      (tail + 1) % size == head
    }

    /** ring_buf_cnt. */
    function Count(): (n: nat)
      requires Valid()
      reads this, buffer
      ensures n == |queue|
    {
      if tail >= head then tail - head else size + tail - head
    }

    /** ring_buf_space. */
    function Space(): (n: nat)
      requires Valid()
      reads this, buffer
      ensures n == size - 1 - |queue|
    {
      if head > tail then head - tail - 1 else size - 1 + head - tail
    }

    /** ring_buf_cnt_to_end: 0 only if nothing is stored. */
    function CountToEnd(): (n: nat)
      requires Valid()
      reads this, buffer
      ensures n <= |queue| && head + n <= size && (n == 0 ==> queue == [])
      ensures n < |queue| ==> head + n == size
    {
      if tail >= head then tail - head else size - head
    }

    /** ring_buf_space_to_end: 0 only if the buffer is full. */
    function SpaceToEnd(): (n: nat)
      requires Valid()
      reads this, buffer
      ensures n <= Space() && tail + n <= size && (n == 0 ==> Space() == 0)
      ensures n < Space() ==> tail + n == size && head > 0
    {
      if head > tail then head - tail - 1 else size - 1 - tail + if head > 0 then 1 else 0
    }

    /** ring_buf_write_char. */
    method WriteChar(data: byte) returns (ok: bool)
      requires Valid()
      modifies `tail, `queue, buffer
      ensures Valid() && ok == (|old(queue)| < size - 1)
      ensures queue == if ok then old(queue) + [data] else old(queue)
    {
      ok := !Full();
      if ok {
        ghost var b, t := buffer[..], tail;
        assert LookRing(0);
        buffer[tail] := data;
        tail := tail + 1;
        if tail >= size {
          tail := tail - size;
        }
        PutStored(b, head, t, [data], buffer[..]);
        queue := queue + [data];
      }
    }

    // One memcpy of the write loop and the advance of tail behind it.
    method PutPiece(w: seq<byte>)
      requires Valid() && 0 < |w| <= SpaceToEnd()
      modifies `tail, `queue, buffer
      ensures Valid() && queue == old(queue) + w
      ensures tail == 0 || tail == old(tail) + |w|
      ensures old(tail) + |w| == size ==> tail == 0
    {
      ghost var b, t := buffer[..], tail;
      assert LookRing(0);
      forall k | 0 <= k < |w| {
        buffer[tail + k] := w[k];
      }
      tail := tail + |w|;
      if tail >= size {
        tail := tail - size;
      }
      PutStored(b, head, t, w, buffer[..]);
      queue := queue + w;
    }

    // One round of the write loop: c bytes are copied, or the loop stops. q was stored before all of it.
    method PutRound(buf: seq<byte>, ret: nat, count: int, ghost q: seq<byte>) returns (c: nat)
      requires Valid() && ret <= |buf| && (ret > 0 ==> ret <= count) && count <= |buf|
      requires queue == q + buf[..ret]
      modifies `tail, `queue, buffer
      ensures Valid() && ret + c <= |buf| && (c > 0 ==> ret + c <= count)
      ensures queue == q + buf[..ret + c]
      ensures c == 0 ==> count <= ret || Space() == 0
      ensures c > 0 ==> ret + c == count || Space() == 0 || (tail == 0 && old(tail) > 0)
    {
      var n := Min(count - ret, SpaceToEnd());
      c := 0;
      if n > 0 {
        c := n;
        PutPiece(buf[ret..ret + c]);
        Joined(q, buf, ret, ret + c);
      }
    }

    /**
     * ring_buf_write: as many of the bytes as there is space for are appended, in at most two copies.
     */
    method Write(buf: seq<byte>, count: int) returns (ret: nat, ghost copies: nat)
      requires Valid() && count <= |buf|
      modifies `tail, `queue, buffer
      ensures Valid() && copies <= 2
      ensures ret == if count < 0 then 0 else Min(count, old(Space()))
      ensures ret <= |buf| && queue == old(queue) + buf[..ret]
    {
      ghost var q, room := queue, Space();
      ret, copies := 0, 0;
      var c := PutRound(buf, 0, count, q);
      while c > 0
        invariant Valid() && ret + c <= |buf| && (ret + c > 0 ==> ret + c <= count)
        invariant queue == q + buf[..ret + c] && (c == 0 ==> count <= ret || Space() == 0)
        invariant c > 0 && tail != 0 ==> ret + c == count || Space() == 0
        invariant copies + (if c == 0 then 0 else if ret + c == count || Space() == 0 then 1 else 2) <= 2
        decreases count - ret
      {
        ret := ret + c;
        copies := copies + 1;
        c := PutRound(buf, ret, count, q);
      }
    }

    // One memcpy of the read loop.
    method CopyOut(buf: array<byte>, at: nat, c: nat)
      requires Valid() && head + c <= size && at + c <= buf.Length && buf != buffer
      modifies buf
      ensures buf[at..at + c] == buffer[..][head..head + c]
      ensures buf[..at] == old(buf[..at]) && buf[at + c..] == old(buf[at + c..])
    {
      forall k | 0 <= k < c {
        buf[at + k] := buffer[head + k];
      }
      ghost var x, y := buf[at..at + c], buffer[..][head..head + c];
      forall k | 0 <= k < c ensures x[k] == y[k] {
        assert x[k] == buf[at + k];
      }
      assert x == y;
    }

    // The copy and the advance of head behind it.
    method TakePiece(buf: array<byte>, at: nat, c: nat)
      requires Valid() && 0 < c <= CountToEnd() && at + c <= buf.Length && buf != buffer
      modifies `head, `queue, buf
      ensures Valid() && old(queue) == buf[at..at + c] + queue
      ensures buf[..at] == old(buf[..at]) && buf[at + c..] == old(buf[at + c..])
      ensures head == 0 || head == old(head) + c
      ensures old(head) + c == size ==> head == 0
    {
      CopyOut(buf, at, c);
      ghost var h := head;
      head := head + c;
      if head >= size {
        head := head - size;
      }
      assert LookRing(0);
      TakeStored(buffer[..], h, tail, c);
      queue := queue[c..];
    }

    // One round of the read loop. q was stored, and rest stood in buf, before all of it.
    method TakeRound(buf: array<byte>, ret: nat, count: int, ghost q: seq<byte>, ghost rest: seq<byte>) returns (c: nat)
      requires Valid() && ret <= buf.Length == |rest| && (ret > 0 ==> ret <= count) && count <= buf.Length && buf != buffer
      requires q == buf[..ret] + queue && buf[ret..] == rest[ret..]
      modifies `head, `queue, buf
      ensures Valid() && ret + c <= buf.Length && (c > 0 ==> ret + c <= count)
      ensures q == buf[..ret + c] + queue && buf[ret + c..] == rest[ret + c..]
      ensures c == 0 ==> count <= ret || queue == []
      ensures c > 0 ==> ret + c == count || queue == [] || (head == 0 && old(head) > 0)
    {
      var n := Min(count - ret, CountToEnd());
      c := 0;
      if n > 0 {
        ghost var b, p := buf[..], queue;
        c := n;
        TakePiece(buf, ret, c);
        Rejoined(b, buf[..], rest, ret, ret + c, p, queue);
      }
    }

    /**
     * ring_buf_read: as many bytes as are stored are removed, first in first out, in at most two
     * copies, and stand at the front of buf.
     */
    method Read(buf: array<byte>, count: int) returns (ret: nat, ghost copies: nat)
      requires Valid() && count <= buf.Length && buf != buffer
      modifies `head, `queue, buf
      ensures Valid() && copies <= 2
      ensures ret == if count < 0 then 0 else Min(count, |old(queue)|)
      ensures ret <= buf.Length && old(queue) == buf[..ret] + queue
      ensures buf[ret..] == old(buf[ret..])
    {
      ghost var q, rest := queue, buf[..];
      ret, copies := 0, 0;
      var c := TakeRound(buf, 0, count, q, rest);
      while c > 0
        invariant Valid() && ret + c <= buf.Length && (ret + c > 0 ==> ret + c <= count)
        invariant q == buf[..ret + c] + queue && buf[ret + c..] == rest[ret + c..]
        invariant c == 0 ==> count <= ret || queue == []
        invariant c > 0 && head != 0 ==> ret + c == count || queue == []
        invariant copies + (if c == 0 then 0 else if ret + c == count || queue == [] then 1 else 2) <= 2
        decreases count - ret
      {
        ret := ret + c;
        copies := copies + 1;
        c := TakeRound(buf, ret, count, q, rest);
      }
    }
  }

  lemma NextPlace(tail: nat, size: nat)
    requires tail < size
    ensures (tail + 1) % size == if tail + 1 == size then 0 else tail + 1
  {
  }

  lemma Joined(q: seq<byte>, buf: seq<byte>, i: nat, j: nat)
    requires i <= j <= |buf|
    ensures (q + buf[..i]) + buf[i..j] == q + buf[..j]
  {
  }

  lemma Rejoined(b: seq<byte>, c: seq<byte>, rest: seq<byte>, i: nat, j: nat, p: seq<byte>, q: seq<byte>)
    requires i <= j <= |b| == |rest| == |c| && p == c[i..j] + q
    requires c[..i] == b[..i] && c[j..] == b[j..] && b[i..] == rest[i..]
    ensures b[..i] + p == c[..j] + q && c[j..] == rest[j..]
  {
    assert c[..j] == c[..i] + c[i..j];
    assert b[j..] == b[i..][j - i..] == rest[i..][j - i..] == rest[j..];
  }

  // Storing w behind the contents.
  lemma PutStored(b: seq<byte>, head: nat, tail: nat, w: seq<byte>, c: seq<byte>)
    requires head < |b| && tail < |b| == |c| && 0 < |w| && tail + |w| <= |b| - if head == 0 then 1 else 0
    requires tail < head ==> tail + |w| < head
    requires c[..tail] == b[..tail] && c[tail..tail + |w|] == w && c[tail + |w|..] == b[tail + |w|..]
    ensures Stored(c, head, if tail + |w| == |b| then 0 else tail + |w|) == Stored(b, head, tail) + w
  {
    if head <= tail {
      assert c[head..tail] == c[..tail][head..] == b[head..tail];
      assert c[head..tail + |w|] == c[head..tail] + c[tail..tail + |w|];
    } else {
      assert c[head..] == c[tail + |w|..][head - tail - |w|..] == b[head..];
      assert c[..tail + |w|] == c[..tail] + c[tail..tail + |w|];
    }
  }

  // Taking c bytes from the front of the contents.
  lemma TakeStored(b: seq<byte>, head: nat, tail: nat, c: nat)
    requires head < |b| && tail < |b| && 0 < c && head + c <= if head <= tail then tail else |b|
    ensures Stored(b, head, tail) == b[head..head + c] + Stored(b, if head + c == |b| then 0 else head + c, tail)
  {
    if head <= tail {
      assert b[head..tail] == b[head..head + c] + b[head + c..tail];
    } else if head + c == |b| {
      assert b[head..head + c] == b[head..] && b[0..tail] == b[..tail];
    } else {
      assert b[head..] == b[head..head + c] + b[head + c..];
      Joined3(b[head..head + c], b[head + c..], b[..tail]);
    }
  }

  lemma Joined3(x: seq<byte>, y: seq<byte>, z: seq<byte>)
    ensures (x + y) + z == x + (y + z)
  {
  }

  // Runs. ----------------------------------------------------------------------------------------

  datatype Op = Write(data: seq<byte>) | WriteChar(c: byte) | Read(count: int)

  // One call on a queue of at most room bytes: what it accepted and what it gave out.
  ghost predicate Step(room: nat, q: seq<byte>, op: Op, into: seq<byte>, out: seq<byte>, q': seq<byte>) {
    match op
    case Write(data) => out == [] && into == data[..Clip(|data|, room - |q|)] && q' == q + into
    case WriteChar(c) => out == [] && into == (if |q| < room then [c] else []) && q' == q + into
    case Read(count) => into == [] && |out| == Clip(count, |q|) && q == out + q'
  }

  function Clip(count: int, limit: int): nat {
    if count < 0 || limit < 0 then 0 else Min(count, limit)
  }

  // Any calls, one after the other; qs are the queues before, between and behind them.
  ghost predicate Run(room: nat, qs: seq<seq<byte>>, ops: seq<Op>, ins: seq<seq<byte>>, outs: seq<seq<byte>>) {
    && |qs| == |ops| + 1 && |ins| == |outs| == |ops|
    && forall i :: 0 <= i < |ops| ==> Step(room, qs[i], ops[i], ins[i], outs[i], qs[i + 1])
  }

  function Concat(s: seq<seq<byte>>): seq<byte> {
    if s == [] then [] else Concat(s[..|s| - 1]) + s[|s| - 1]
  }

  /** First in, first out: what was stored and accepted is what came out, then what is still stored. */
  lemma {:induction false} RunIsFifo(room: nat, qs: seq<seq<byte>>, ops: seq<Op>, ins: seq<seq<byte>>, outs: seq<seq<byte>>)
    requires Run(room, qs, ops, ins, outs) && |qs[0]| <= room
    ensures qs[0] + Concat(ins) == Concat(outs) + qs[|ops|] && |qs[|ops|]| <= room
    decreases |ops|
  {
    if ops == [] {
      assert qs[0] + [] == qs[0] == [] + qs[0];
    } else {
      var n := |ops| - 1;
      RunIsFifo(room, qs[..n + 1], ops[..n], ins[..n], outs[..n]);
      assert Step(room, qs[n], ops[n], ins[n], outs[n], qs[n + 1]);
      StepIsFifo(room, qs[0], Concat(ins[..n]), Concat(outs[..n]), qs[n], ops[n], ins[n], outs[n], qs[n + 1]);
    }
  }

  lemma StepIsFifo(room: nat, q0: seq<byte>, before: seq<byte>, gone: seq<byte>, q: seq<byte>,
                   op: Op, into: seq<byte>, out: seq<byte>, q': seq<byte>)
    requires Step(room, q, op, into, out, q') && q0 + before == gone + q && |q| <= room
    ensures q0 + (before + into) == (gone + out) + q' && |q'| <= room
  {
    assert q0 + (before + into) == q0 + before + into;
    if op.Read? {
      assert before + [] == before;
      assert gone + (out + q') == (gone + out) + q';
    } else {
      assert gone + [] == gone;
      assert gone + q + into == gone + (q + into);
    }
  }

  /** Each call on the buffer is such a step; its capacity is size - 1. */
  method Call(r: Ring, op: Op) returns (ghost into: seq<byte>, out: seq<byte>)
    requires r.Valid() && (op.Write? ==> |op.data| <= INT_MAX)
    modifies r, r.buffer
    ensures r.Valid() && r.buffer == old(r.buffer) && r.size == old(r.size)
    ensures Step(r.size - 1, old(r.queue), op, into, out, r.queue)
  {
    into, out := [], [];
    match op {
      case Write(data) =>
        var n, copies := r.Write(data, |data|);
        into := data[..n];
      case WriteChar(c) =>
        var ok := r.WriteChar(c);
        into := if ok then [c] else [];
      case Read(count) =>
        var buf := new byte[if count < 0 then 0 else count];
        var n, copies := r.Read(buf, count);
        out := buf[..n];
    }
  }

  /** A whole run, from any state. */
  method CallAll(r: Ring, ops: seq<Op>)
    returns (ghost ins: seq<seq<byte>>, outs: seq<seq<byte>>, ghost qs: seq<seq<byte>>)
    requires r.Valid() && forall i :: 0 <= i < |ops| && ops[i].Write? ==> |ops[i].data| <= INT_MAX
    modifies r, r.buffer
    ensures r.Valid() && r.size == old(r.size)
    ensures Run(r.size - 1, qs, ops, ins, outs) && qs[0] == old(r.queue) && qs[|ops|] == r.queue
    ensures old(r.queue) + Concat(ins) == Concat(outs) + r.queue && |r.queue| <= r.size - 1
  {
    ins, outs, qs := [], [], [r.queue];
    for k := 0 to |ops|
      invariant r.Valid() && r.buffer == old(r.buffer) && r.size == old(r.size)
      invariant Run(r.size - 1, qs, ops[..k], ins, outs) && qs[0] == old(r.queue) && qs[k] == r.queue
    {
      ghost var into;
      var out;
      into, out := Call(r, ops[k]);
      qs, ins, outs := qs + [r.queue], ins + [into], outs + [out];
    }
    assert ops[..|ops|] == ops;
    RunIsFifo(r.size - 1, qs, ops, ins, outs);
  }
}
