/**
 The byte ring buffer of the pseudo-TCP socket and its refinement of a bounded queue.

 `Ring()` lists the whole buffer from the read position on: first the buffered bytes, then the
 free space, where out-of-order data waits at its offset from the end.
 */
module Fifo {
  import opened Wrap32

  function Min(a: int, b: int): int {
    if a < b then a else b
  }

  /** `ring` with `src` laid over it from index `at`. */
  function Overlay(ring: seq<byte>, at: nat, src: seq<byte>): seq<byte>
    requires at + |src| <= |ring|
  {
    ring[..at] + src + ring[at + |src|..]
  }

  function Rotate(ring: seq<byte>, n: nat): seq<byte>
    requires n <= |ring|
  {
    ring[n..] + ring[..n]
  }

  /** The buffer as seen from its read position. */
  function RingOf(raw: seq<byte>, readPosition: nat): seq<byte>
    requires readPosition <= |raw|
  {
    raw[readPosition..] + raw[..readPosition]
  }

  function WrapAt(sum: nat, n: nat): nat {
    if sum < n then sum else sum - n
  }

  /** The position `sum` reduced to the buffer; one step along the ring wraps at most once. */
  method Wrap(sum: nat, n: nat) returns (r: nat)
    requires 0 < n && sum < 2 * n
    ensures r == WrapAt(sum, n)
  {
    r := sum % n;
    ghost var q := sum / n;
    assert sum == q * n + r;
    assert q < 2 by {
      assert q * n < 2 * n;
    }
  }

  method MemCopy(dst: array<byte>, at: nat, src: seq<byte>)
    requires at + |src| <= dst.Length
    modifies dst
    ensures dst[..] == Overlay(old(dst[..]), at, src)
  {
    forall k | 0 <= k < |src| {
      dst[at + k] := src[k];
    }
  }

  /** The two copies around the end of the buffer with which the source reads. */
  method CopyOut(buffer: array<byte>, readPosition: nat, at: nat, n: nat) returns (out: seq<byte>)
    requires readPosition < buffer.Length && at < buffer.Length && at + n <= buffer.Length
    ensures out == RingOf(buffer[..], readPosition)[at..at + n]
  {
    var start := Wrap(readPosition + at, buffer.Length);
    var tailCopy := Min(n, buffer.Length - start);
    out := buffer[..][start..start + tailCopy] + buffer[..][..n - tailCopy];
    WrappedRead(buffer[..], readPosition, at, n, tailCopy);
  }

  /** The two copies around the end of the buffer with which the source writes. */
  method CopyIn(buffer: array<byte>, readPosition: nat, at: nat, src: seq<byte>)
    requires readPosition < buffer.Length && at < buffer.Length && at + |src| <= buffer.Length
    modifies buffer
    ensures RingOf(buffer[..], readPosition) == Overlay(old(RingOf(buffer[..], readPosition)), at, src)
  {
    var start := Wrap(readPosition + at, buffer.Length);
    var tailCopy := Min(|src|, buffer.Length - start);
    ghost var raw := buffer[..];
    MemCopy(buffer, start, src[..tailCopy]);
    ghost var mid := buffer[..];
    MemCopy(buffer, 0, src[tailCopy..]);
    WrappedWrite(raw, mid, buffer[..], readPosition, at, src, tailCopy);
  }

  class PseudoTcpFifo {
    var buffer: array<byte>
    var dataLength: nat
    var readPosition: nat

    ghost predicate Valid()
      reads this
    {
      && 0 < buffer.Length
      && dataLength <= buffer.Length
      && readPosition < buffer.Length
    }

    ghost function Ring(): (r: seq<byte>)
      requires Valid()
      reads this, buffer
      ensures |r| == buffer.Length
    {
      RingOf(buffer[..], readPosition)
    }

    ghost function Contents(): (s: seq<byte>)
      requires Valid()
      reads this, buffer
      ensures |s| == dataLength
    {
      Ring()[..dataLength]
    }

    constructor (size: nat)
      requires 0 < size
      ensures Valid() && fresh(buffer)
      ensures buffer.Length == size && Contents() == []
    {
      buffer := new byte[size];
      dataLength := 0;
      readPosition := 0;
    }

    function WriteRemaining(): (n: nat)
      requires Valid()
      reads this
      ensures dataLength + n == buffer.Length
    {
      buffer.Length - dataLength
    }

    /** Succeeds iff the buffered bytes fit; a request for exactly that many bytes keeps the old buffer. */
    method SetCapacity(size: nat) returns (ok: bool)
      requires Valid()
      modifies this
      ensures Valid()
      ensures ok <==> old(dataLength) <= size
      ensures Contents() == old(Contents()) && dataLength == old(dataLength)
      ensures ok && size != old(dataLength) ==> fresh(buffer) && buffer.Length == size
      ensures !ok || size == old(dataLength) ==> unchanged(this)
    {
      if dataLength > size {
        return false;
      }
      if size != dataLength {
        var out := CopyOut(buffer, readPosition, 0, dataLength);
        var larger := new byte[size];
        MemCopy(larger, 0, out);
        assert larger[..][..dataLength] == out;
        buffer := larger;
        readPosition := 0;
        assert Ring() == larger[..];
      }
      return true;
    }

    method ConsumeReadData(size: nat)
      requires Valid()
      requires size <= dataLength
      modifies this`readPosition, this`dataLength
      ensures Valid()
      ensures Ring() == Rotate(old(Ring()), size)
      ensures dataLength == old(dataLength) - size
      ensures Contents() == old(Contents())[size..]
    {
      hide RingOf;
      ghost var contents := Contents();
      readPosition := Wrap(readPosition + size, buffer.Length);
      dataLength := dataLength - size;
      RingRotates(buffer[..], old(readPosition), size);
      assert Contents() == contents[size..];
    }

    method ConsumeWriteBuffer(size: nat)
      requires Valid()
      requires size <= buffer.Length - dataLength
      modifies this`dataLength
      ensures Valid()
      ensures Ring() == old(Ring())
      ensures dataLength == old(dataLength) + size
    {
      dataLength := dataLength + size;
    }

    method ReadOffset(bytes: nat, offset: nat) returns (out: seq<byte>)
      requires Valid()
      ensures offset >= dataLength ==> out == []
      ensures offset < dataLength ==> out == Contents()[offset..offset + Min(bytes, dataLength - offset)]
    {
      if offset >= dataLength {
        return [];
      }
      var available := dataLength - offset;
      var copy := Min(bytes, available);
      out := CopyOut(buffer, readPosition, offset, copy);
    }

    method WriteOffset(src: seq<byte>, offset: nat) returns (copy: nat)
      requires Valid()
      modifies buffer
      ensures Valid()
      ensures dataLength + offset >= buffer.Length ==> copy == 0 && Ring() == old(Ring())
      ensures dataLength + offset < buffer.Length ==>
                && copy == Min(|src|, buffer.Length - dataLength - offset)
                && Ring() == Overlay(old(Ring()), dataLength + offset, src[..copy])
    {
      if dataLength + offset >= buffer.Length {
        return 0;
      }
      var available := buffer.Length - dataLength - offset;
      copy := Min(|src|, available);
      CopyIn(buffer, readPosition, dataLength + offset, src[..copy]);
    }

    method Read(bytes: nat) returns (out: seq<byte>)
      requires Valid()
      modifies this`readPosition, this`dataLength
      ensures Valid()
      ensures out == old(Contents())[..Min(bytes, old(dataLength))]
      ensures Ring() == Rotate(old(Ring()), |out|)
      ensures dataLength == old(dataLength) - |out|
      ensures Contents() == old(Contents())[|out|..]
    {
      out := ReadOffset(bytes, 0);
      ConsumeReadData(|out|);
    }

    method Write(src: seq<byte>) returns (copy: nat)
      requires Valid()
      modifies buffer, this`dataLength
      ensures Valid()
      ensures copy == Min(|src|, buffer.Length - old(dataLength))
      ensures Ring() == Overlay(old(Ring()), old(dataLength), src[..copy])
      ensures dataLength == old(dataLength) + copy
      ensures Contents() == old(Contents()) + src[..copy]
    {
      ghost var contents := Contents();
      ghost var ring := Ring();
      copy := WriteOffset(src, 0);
      assert dataLength == buffer.Length ==> Overlay(ring, dataLength, []) == ring;
      dataLength := dataLength + copy;
      assert Contents() == contents + src[..copy];
    }
  }

  /** Advancing the read position rotates the ring. */
  lemma RingRotates(raw: seq<byte>, readPosition: nat, n: nat)
    requires readPosition < |raw| && n <= |raw|
    ensures RingOf(raw, WrapAt(readPosition + n, |raw|)) == Rotate(RingOf(raw, readPosition), n)
  {
  }

  /** Two pieces around the end of the array are one slice of the ring. */
  lemma WrappedRead(raw: seq<byte>, readPosition: nat, at: nat, n: nat, tail: nat)
    requires readPosition < |raw|
    requires at < |raw| && at + n <= |raw|
    requires tail == Min(n, |raw| - WrapAt(readPosition + at, |raw|))
    ensures RingOf(raw, readPosition)[at..at + n]
         == raw[WrapAt(readPosition + at, |raw|)..WrapAt(readPosition + at, |raw|) + tail] + raw[..n - tail]
  {
  }

  /** Writing `src` in two pieces around the end of the array is one overlay of the ring. */
  lemma WrappedWrite(raw: seq<byte>, mid: seq<byte>, now: seq<byte>, readPosition: nat, at: nat, src: seq<byte>,
                     tail: nat)
    requires readPosition < |raw|
    requires at < |raw| && at + |src| <= |raw|
    requires tail == Min(|src|, |raw| - WrapAt(readPosition + at, |raw|))
    requires mid == Overlay(raw, WrapAt(readPosition + at, |raw|), src[..tail])
    requires now == Overlay(mid, 0, src[tail..])
    ensures RingOf(now, readPosition) == Overlay(RingOf(raw, readPosition), at, src)
  {
    var ring := RingOf(now, readPosition);
    var want := Overlay(RingOf(raw, readPosition), at, src);
    forall k | 0 <= k < |raw| ensures ring[k] == want[k] {
      var i := WrapAt(readPosition + k, |raw|);
      assert ring[k] == now[i] && RingOf(raw, readPosition)[k] == raw[i];
      if i < |src| - tail {
        assert now[i] == src[tail + i];
      } else {
        assert now[i] == mid[i];
      }
    }
  }

  /** Reading moves the end closer to the front; what lies past the end keeps its offset from it. */
  lemma OffsetsFromEndSurviveReads(ring: seq<byte>, dataLength: nat, n: nat, offset: nat)
    requires n <= dataLength && dataLength + offset < |ring|
    ensures Rotate(ring, n)[dataLength - n + offset] == ring[dataLength + offset]
  {
  }

  // The bounded queue that the ring implements.

  /** A cell of the queue: never written since it became free, or holding a byte. */
  datatype Cell = Unknown | Known(value: byte)

  /** The first `length` cells are the contents, the rest is free; bytes may lie there ahead of their turn. */
  datatype Queue = Queue(cells: seq<Cell>, length: nat)

  datatype Op =
    | Read(n: nat)
    | Write(src: seq<byte>)
    | ReadOffset(n: nat, offset: nat)
    | WriteOffset(src: seq<byte>, offset: nat)
    | ConsumeRead(n: nat)
    | ConsumeWrite(n: nat)
    | SetCapacity(size: nat)

  /** What the source asserts of the two consume operations. */
  predicate Allowed(q: Queue, op: Op) {
    match op
    case ConsumeRead(n) => n <= q.length
    case ConsumeWrite(n) => q.length + n <= |q.cells|
    case _ => true
  }

  /** What an operation hands back. */
  datatype Output = Bytes(bytes: seq<byte>) | Count(n: nat) | Nothing | Resized(ok: bool)

  /** The bytes are those of the cells, wherever these hold one. */
  ghost predicate Agrees(bytes: seq<byte>, cells: seq<Cell>) {
    |bytes| == |cells| && forall k :: 0 <= k < |cells| && cells[k].Known? ==> bytes[k] == cells[k].value
  }

  ghost predicate Answers(q: Queue, op: Op, out: Output)
    requires q.length <= |q.cells|
  {
    match op
    case Read(n) => out.Bytes? && Agrees(out.bytes, q.cells[..Min(n, q.length)])
    case ReadOffset(n, offset) =>
      out.Bytes? && if offset >= q.length then out.bytes == []
                    else Agrees(out.bytes, q.cells[offset..offset + Min(n, q.length - offset)])
    case Write(src) => out == Count(Min(|src|, |q.cells| - q.length))
    case WriteOffset(src, offset) =>
      out == Count(if q.length + offset >= |q.cells| then 0 else Min(|src|, |q.cells| - q.length - offset))
    case SetCapacity(size) => out == Resized(q.length <= size)
    case _ => out == Nothing
  }

  function Unknowns(n: nat): seq<Cell> {
    seq(n, _ => Unknown)
  }

  function Knowns(src: seq<byte>): seq<Cell> {
    seq(|src|, k requires 0 <= k < |src| => Known(src[k]))
  }

  function Drop(q: Queue, n: nat): Queue
    requires n <= q.length <= |q.cells|
  {
    Queue(q.cells[n..] + Unknowns(n), q.length - n)
  }

  function Put(q: Queue, src: seq<byte>, offset: nat): Queue
    requires q.length + offset + |src| <= |q.cells|
  {
    q.(cells := q.cells[..q.length + offset] + Knowns(src) + q.cells[q.length + offset + |src|..])
  }

  function After(q: Queue, op: Op): (q': Queue)
    requires q.length <= |q.cells| && Allowed(q, op)
    ensures q'.length <= |q'.cells|
  {
    match op
    case Read(n) => Drop(q, Min(n, q.length))
    case Write(src) =>
      var n := Min(|src|, |q.cells| - q.length);
      Put(q, src[..n], 0).(length := q.length + n)
    case ReadOffset(_, _) => q
    case WriteOffset(src, offset) =>
      if q.length + offset >= |q.cells| then q else Put(q, src[..Min(|src|, |q.cells| - q.length - offset)], offset)
    case ConsumeRead(n) => Drop(q, n)
    case ConsumeWrite(n) => q.(length := q.length + n)
    case SetCapacity(size) =>
      if size <= q.length then q else Queue(q.cells[..q.length] + Unknowns(size - q.length), q.length)
  }

  ghost predicate Represents(ring: seq<byte>, dataLength: nat, q: Queue) {
    dataLength == q.length <= |q.cells| && Agrees(ring, q.cells)
  }

  lemma DropRepresents(ring: seq<byte>, q: Queue, n: nat)
    requires Represents(ring, q.length, q) && n <= q.length
    ensures Represents(Rotate(ring, n), q.length - n, Drop(q, n))
  {
    var q' := Drop(q, n);
    forall k | 0 <= k < |q'.cells| && q'.cells[k].Known? ensures Rotate(ring, n)[k] == q'.cells[k].value {
      assert q'.cells[k] == q.cells[k + n] && Rotate(ring, n)[k] == ring[k + n];
    }
  }

  lemma PutRepresents(ring: seq<byte>, q: Queue, src: seq<byte>, offset: nat)
    requires Represents(ring, q.length, q) && q.length + offset + |src| <= |q.cells|
    ensures Represents(Overlay(ring, q.length + offset, src), q.length, Put(q, src, offset))
  {
  }

  ghost predicate Refines(f: PseudoTcpFifo, q: Queue)
    reads f, f.buffer
  {
    f.Valid() && Represents(f.Ring(), f.dataLength, q)
  }

  method PerformRead(f: PseudoTcpFifo, n: nat, ghost q: Queue) returns (bytes: seq<byte>)
    requires Refines(f, q)
    modifies f`readPosition, f`dataLength
    ensures Refines(f, After(q, Read(n))) && Answers(q, Read(n), Bytes(bytes))
  {
    hide RingOf, Drop, Rotate;
    ghost var ring := f.Ring();
    bytes := f.Read(n);
    DropRepresents(ring, q, |bytes|);
  }

  method PerformReadOffset(f: PseudoTcpFifo, n: nat, offset: nat, ghost q: Queue) returns (bytes: seq<byte>)
    requires Refines(f, q)
    ensures Answers(q, ReadOffset(n, offset), Bytes(bytes))
  {
    hide RingOf;
    bytes := f.ReadOffset(n, offset);
    assert forall k :: 0 <= k < |bytes| ==> bytes[k] == f.Ring()[offset + k];
  }

  method PerformWrite(f: PseudoTcpFifo, src: seq<byte>, ghost q: Queue) returns (copy: nat)
    requires Refines(f, q)
    modifies f`dataLength, f.buffer
    ensures Refines(f, After(q, Write(src))) && Answers(q, Write(src), Count(copy))
  {
    hide RingOf, Put, Overlay;
    ghost var ring := f.Ring();
    copy := f.Write(src);
    PutRepresents(ring, q, src[..copy], 0);
  }

  method PerformWriteOffset(f: PseudoTcpFifo, src: seq<byte>, offset: nat, ghost q: Queue) returns (copy: nat)
    requires Refines(f, q)
    modifies f.buffer
    ensures Refines(f, After(q, WriteOffset(src, offset))) && Answers(q, WriteOffset(src, offset), Count(copy))
  {
    hide RingOf, Put, Overlay;
    ghost var ring := f.Ring();
    copy := f.WriteOffset(src, offset);
    if q.length + offset < |q.cells| {
      PutRepresents(ring, q, src[..copy], offset);
    }
  }

  method PerformConsume(f: PseudoTcpFifo, op: Op, ghost q: Queue)
    requires Refines(f, q) && Allowed(q, op) && (op.ConsumeRead? || op.ConsumeWrite?)
    modifies f`readPosition, f`dataLength
    ensures Refines(f, After(q, op))
  {
    hide RingOf, Drop, Rotate;
    ghost var ring := f.Ring();
    if op.ConsumeRead? {
      f.ConsumeReadData(op.n);
      DropRepresents(ring, q, op.n);
    } else {
      f.ConsumeWriteBuffer(op.n);
    }
  }

  method PerformSetCapacity(f: PseudoTcpFifo, size: nat, ghost q: Queue) returns (ok: bool)
    requires Refines(f, q)
    modifies f
    ensures f.buffer == old(f.buffer) || fresh(f.buffer)
    ensures Refines(f, After(q, SetCapacity(size))) && Answers(q, SetCapacity(size), Resized(ok))
  {
    hide RingOf;
    ghost var ring := f.Ring();
    ok := f.SetCapacity(size);
    assert forall k :: 0 <= k < f.dataLength ==> f.Ring()[k] == f.Contents()[k] == ring[k];
  }

  /** One operation on the ring does to the abstraction what the queue does, and answers alike. */
  method Perform(f: PseudoTcpFifo, op: Op, ghost q: Queue) returns (out: Output)
    requires Refines(f, q) && Allowed(q, op)
    modifies f, f.buffer
    ensures f.buffer == old(f.buffer) || fresh(f.buffer)
    ensures Refines(f, After(q, op))
    ensures Answers(q, op, out)
  {
    hide RingOf, Drop, Put, Represents, Agrees;
    match op
    case Read(n) =>
      var bytes := PerformRead(f, n, q);
      out := Bytes(bytes);
    case Write(src) =>
      var copy := PerformWrite(f, src, q);
      out := Count(copy);
    case ReadOffset(n, offset) =>
      var bytes := PerformReadOffset(f, n, offset, q);
      out := Bytes(bytes);
    case WriteOffset(src, offset) =>
      var copy := PerformWriteOffset(f, src, offset, q);
      out := Count(copy);
    case SetCapacity(size) =>
      var ok := PerformSetCapacity(f, size, q);
      out := Resized(ok);
    case _ =>
      PerformConsume(f, op, q);
      out := Nothing;
  }

  ghost predicate AllAllowed(q: Queue, ops: seq<Op>)
    requires q.length <= |q.cells|
    decreases |ops|
  {
    ops == [] || (Allowed(q, ops[0]) && AllAllowed(After(q, ops[0]), ops[1..]))
  }

  ghost function AfterAll(q: Queue, ops: seq<Op>): Queue
    requires q.length <= |q.cells| && AllAllowed(q, ops)
    decreases |ops|
  {
    if ops == [] then q else AfterAll(After(q, ops[0]), ops[1..])
  }

  ghost predicate AnswersAll(q: Queue, ops: seq<Op>, outs: seq<Output>)
    requires q.length <= |q.cells| && AllAllowed(q, ops)
    decreases |ops|
  {
    |outs| == |ops| && (ops == [] || (Answers(q, ops[0], outs[0]) && AnswersAll(After(q, ops[0]), ops[1..], outs[1..])))
  }

  method PerformAll(f: PseudoTcpFifo, ops: seq<Op>, ghost q: Queue) returns (outs: seq<Output>)
    requires q.length <= |q.cells| && Refines(f, q) && AllAllowed(q, ops)
    modifies f, f.buffer
    ensures f.buffer == old(f.buffer) || fresh(f.buffer)
    ensures AnswersAll(q, ops, outs) && Refines(f, AfterAll(q, ops))
    decreases |ops|
  {
    hide Refines, After, Answers, Allowed;
    if ops == [] {
      return [];
    }
    var first := Perform(f, ops[0], q);
    var rest := PerformAll(f, ops[1..], After(q, ops[0]));
    outs := [first] + rest;
    assert outs[1..] == rest;
  }

  /** From a new buffer on, every interleaving of operations answers what the bounded queue answers. */
  method RunAll(capacity: nat, ops: seq<Op>) returns (f: PseudoTcpFifo, outs: seq<Output>)
    requires 0 < capacity && AllAllowed(Queue(Unknowns(capacity), 0), ops)
    ensures AnswersAll(Queue(Unknowns(capacity), 0), ops, outs)
    ensures Refines(f, AfterAll(Queue(Unknowns(capacity), 0), ops))
  {
    hide RingOf, AnswersAll, AfterAll, AllAllowed;
    f := new PseudoTcpFifo(capacity);
    assert Refines(f, Queue(Unknowns(capacity), 0));
    outs := PerformAll(f, ops, Queue(Unknowns(capacity), 0));
  }
}
