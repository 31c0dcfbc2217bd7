/** The output buffer: a growing ring that keeps the tail of an unbounded stream, and serves
    blocked readers from the bytes of each write. Every method is one critical section. */
module Buffering {
  import opened Bytes
  import opened StreamSpec
  import opened Ring
  import opened Growth
  import opened Readers
  import opened BufferSpec

  class OutputBuffer {
    var buffer: array<byte>
    var capacity: nat
    const maxCapacity: nat
    var size: nat
    var head: nat
    var writtenBytes: nat
    var closed: bool
    const readers: ReaderList

    ghost var stream: seq<byte>  // every byte ever written
    ghost var copied: nat        // bytes moved by all expansions so far
    ghost var discarded: nat     // bytes overwritten by all writes so far

    ghost predicate RingValid()
      reads this
    {
      && size <= capacity <= buffer.Length && capacity <= maxCapacity
      && (head < capacity || head == 0)
    }

    /** The bytes in the ring, oldest first. */
    ghost function Contents(): (r: seq<byte>)
      reads this, buffer
      requires RingValid()
    {
      Unrolled(buffer[..], capacity, head, size)
    }

    ghost function Ledger(): Books
      reads this
    {
      Books(maxCapacity, capacity, size, head, |stream|, copied, discarded)
    }

    /** The ring holds exactly the end of the stream, as much of it as the limit allows. */
    ghost predicate StoreValid()
      reads this, buffer
    {
      && RingValid() && Ledger().Balanced() && writtenBytes == |stream|
      && Contents() == stream[|stream| - size..]
    }

    ghost predicate Valid()
      reads this, buffer, readers, readers.heap
    {
      && StoreValid() && |stream| < TWO_63
      && readers.Valid() && buffer !in readers.Targets()
      && View().NoLostWakeUp()
    }

    ghost function View(): State
      reads this, readers
    {
      State(maxCapacity, stream, closed, readers.View())
    }

    constructor (maxCapacity: nat, initialCapacity: nat := 64 * 1024)
      ensures Valid() && fresh(buffer) && fresh(readers) && View() == Fresh(maxCapacity)
      ensures Ledger() == NewBooks(maxCapacity, initialCapacity)
    {
      this.maxCapacity := maxCapacity;
      buffer := new byte[maxCapacity];
      capacity := Min(initialCapacity, maxCapacity);
      size, head, writtenBytes, closed := 0, 0, 0, false;
      readers := new ReaderList();
      stream, copied, discarded := [], 0, 0;
      new;
      hide Unrolled, Books.After, Books.Balanced, DistinctTargets;
      NewIsBalanced(maxCapacity, initialCapacity);
      assert Contents() == stream[|stream| - size..];
      assert readers.View() == EMPTY_QUEUE;
    }

    /** Grows the ring, at least doubling it, up to the limit; the bytes stay and start at 0. */
    method ExpandBuffer(desiredCapacity: nat)
      requires RingValid()
      modifies this`buffer, this`capacity, this`head, this`copied
      ensures RingValid() && Contents() == old(Contents())
      ensures capacity == Max(old(capacity), Min(Max(old(capacity) * 2, desiredCapacity), maxCapacity))
      ensures if capacity > old(capacity) then fresh(buffer) && head == 0 && copied == old(copied) + size
              else buffer == old(buffer) && head == old(head) && copied == old(copied)
    {
      var newCapacity := Min(Max(capacity * 2, desiredCapacity), maxCapacity);
      if newCapacity > capacity {
        var larger := new byte[newCapacity];
        CopyOut(buffer, capacity, head, size, larger);
        buffer := larger;
        capacity := newCapacity;
        head := 0;
        copied := copied + size;
      }
    }

    /** Appends as much of `data` as there is room for. */
    method CircularWrite(data: seq<byte>) returns (bytesToWrite: nat)
      requires RingValid() && capacity > 0
      modifies this`size, buffer
      ensures RingValid() && bytesToWrite == Min(|data|, capacity - old(size))
      ensures size == old(size) + bytesToWrite && Contents() == old(Contents()) + data[..bytesToWrite]
    {
      hide Stored, Unrolled;
      var room := capacity - size;
      bytesToWrite := Min(|data|, room);
      RemainderIsCell(capacity, head, size);
      var tail := Remainder(head + size, capacity);
      var piece := data[..bytesToWrite];
      ghost var cells := buffer[..];
      CopyIn(buffer, capacity, tail, piece);
      StoredAppends(cells, capacity, head, size, piece);
      assert buffer[..] == Stored(cells, capacity, tail, piece);
      size := size + bytesToWrite;
    }

    /** Puts `data` behind the content, at the current capacity, dropping as many of the oldest
        bytes as necessary. Returns how many bytes are lost. */
    method Replace(data: seq<byte>) returns (overwrittenLen: nat)
      requires RingValid() && capacity >= 1
      modifies this`size, this`head, buffer
      ensures RingValid() && size == Min(capacity, old(size) + |data|)
      ensures old(size) + |data| == size + overwrittenLen
      ensures Contents() == (old(Contents()) + data)[overwrittenLen..]
      ensures head == if overwrittenLen == 0 || |data| >= capacity then old(head) else Remainder(old(head) + overwrittenLen, capacity)
    {
      hide Unrolled;
      overwrittenLen := 0;
      ghost var held := Contents();
      if |data| >= capacity {
        overwrittenLen := size + (|data| - capacity);
        size := 0;
        var n := CircularWrite(data[|data| - capacity..]);
        DropPast(held, data, overwrittenLen);
      } else {
        var preserveLen := capacity - |data|;
        if preserveLen < size {
          overwrittenLen := size - preserveLen;
          DropFront(overwrittenLen);
        }
        DropWithin(held, data, overwrittenLen);
        var n := CircularWrite(data);
        assert data[..n] == data;
      }
    }

    /** Forgets the `n` oldest bytes. */
    method DropFront(n: nat)
      requires RingValid() && n <= size && 0 < capacity
      modifies this`size, this`head
      ensures RingValid() && size == old(size) - n && Contents() == old(Contents())[n..]
      ensures head == Remainder(old(head) + n, capacity)
    {
      hide Unrolled, Remainder;
      DropMovesHead(buffer[..], capacity, head, size, n);
      RemainderIsCell(capacity, head, n);
      size := size - n;
      head := Remainder(head + n, capacity);
    }

    /** Grows the ring for `data` if that helps, then stores it. */
    method Admit(data: seq<byte>) returns (overwrittenLen: nat)
      requires RingValid() && maxCapacity >= 1 && (capacity >= 1 || data != [])
      modifies this`buffer, this`capacity, this`size, this`head, this`copied, buffer
      ensures RingValid() && (buffer == old(buffer) || fresh(buffer))
      ensures Ledger() == old(Ledger()).After(|data|).(total := |stream|, discarded := discarded)
      ensures old(size) + |data| == size + overwrittenLen
      ensures Contents() == (old(Contents()) + data)[overwrittenLen..]
    {
      hide Unrolled, Remainder;
      var desiredCapacity := size + |data|;
      if desiredCapacity > capacity && capacity < maxCapacity {
        ExpandBuffer(desiredCapacity);
      }
      overwrittenLen := Replace(data);
    }

    /** Appends `data` to the stream, growing the ring if that helps and overwriting the oldest
        bytes otherwise. Returns how many bytes are lost. */
    method Overwrite(data: seq<byte>) returns (overwrittenLen: nat)
      requires StoreValid() && maxCapacity >= 1 && (capacity >= 1 || data != [])
      modifies this`buffer, this`capacity, this`size, this`head, this`writtenBytes, this`stream, this`copied, this`discarded, buffer
      ensures StoreValid()
      ensures stream == old(stream) + data && (buffer == old(buffer) || fresh(buffer))
      ensures old(size) + |data| == size + overwrittenLen && capacity >= old(capacity)
      ensures Ledger() == old(Ledger()).After(|data|)
    {
      hide Unrolled, Books.After, Books.Balanced;
      ghost var books := Ledger();
      WriteBalances(books, |data|);
      overwrittenLen := Admit(data);
      TailAfterAppend(stream, books.size, data, overwrittenLen);
      writtenBytes := writtenBytes + |data|;
      stream := stream + data;
      discarded := discarded + overwrittenLen;
    }

    /** Copies up to `count` of the bytes kept, from the `start`-th on, to `target`. */
    method CircularRead(target: array<byte>, count: nat, start: nat) returns (readSize: nat)
      requires RingValid() && count <= target.Length && target != buffer
      modifies target
      ensures readSize == if start < size then Min(count, size - start) else 0
      ensures readSize <= target.Length && target[readSize..] == old(target[readSize..])
      ensures start < size ==> target[..readSize] == Contents()[start..start + readSize]
    {
      hide Unrolled;
      if size > start {
        readSize := Min(count, size - start);
        RemainderIsCell(capacity, head, start);
        var front := Remainder(head + start, capacity);
        DropMovesHead(buffer[..], capacity, head, size, start);
        TakeKeepsHead(buffer[..], capacity, front, size - start, readSize);
        CopyOut(buffer, capacity, front, readSize, target);
      } else {
        readSize := 0;
      }
    }

    /** Everything the buffer may change: itself, its waiting readers and their targets. */
    ghost function Footprint(): set<object>
      reads this, readers
    {
      {this, buffer, readers} + readers.heap + readers.Targets()
    }

    /** Can a write of `data` be carried out? A ring without cells cannot even take nothing. */
    predicate Writable(data: seq<byte>)
      reads this
    {
      closed || (maxCapacity >= 1 && (capacity >= 1 || data != []))
    }

    /** A write to an open buffer: stores `data` and wakes the readers it reaches. */
    method Append(data: seq<byte>)
      requires Valid() && !closed && Writable(data) && |stream| + |data| < TWO_63
      modifies Footprint()
      ensures Valid() && View() == old(View()).Write(data)
      ensures Ledger() == old(Ledger()).After(|data|)
      ensures capacity >= old(capacity) && (buffer == old(buffer) || fresh(buffer))
      ensures forall r :: r in old(View()).queue.Served(|stream|) ==> Answered(r, stream)
    {
      hide Unrolled, Books.Balanced, Queue.Process, Queue.Passed, Queue.Served;
      ghost var queue := readers.View();
      var oldWrittenBytes := writtenBytes;
      var overwritten := Overwrite(data);
      assert readers.View() == queue;
      readers.Process(writtenBytes, stream, oldWrittenBytes, data);
      WriteKeepsPromise(old(View()), data);
    }

    /** Appends `data` to the stream and answers every reader it reaches; refused once closed. */
    method Write(data: seq<byte>) returns (ok: bool)
      requires Valid() && Writable(data) && |stream| + |data| < TWO_63
      modifies Footprint()
      ensures Valid() && View() == old(View()).Write(data) && ok == !old(closed)
      ensures Ledger() == if ok then old(Ledger()).After(|data|) else old(Ledger())
      ensures capacity >= old(capacity) && (buffer == old(buffer) || fresh(buffer))
      ensures ok ==> forall r :: r in old(View()).queue.Served(|stream|) ==> Answered(r, stream)
    {
      hide Unrolled, Queue.Process, Queue.Passed, Queue.Served;
      ok := !closed;
      if ok {
        Append(data);
      }
    }

    /** The part of the stream from `begin` on, or from the oldest byte kept, as much as fits. */
    method ReadKept(begin: nat, target: array<byte>, count: nat) returns (r: ReadResult)
      requires StoreValid() && begin < |stream| && count <= target.Length && target != buffer
      modifies target
      ensures r == Answer(maxCapacity, stream, closed, begin, count)
      ensures Shows(target[..], stream, r) && target[r.count..] == old(target[r.count..])
    {
      hide Unrolled;
      ghost var kept := Contents();
      var minBegin := writtenBytes - size;
      var localStart := if begin <= minBegin then 0 else begin - minBegin;
      var readSize := CircularRead(target, count, localStart);
      assert target[..readSize] == kept[localStart..localStart + readSize];
      r := DataAt(writtenBytes - size + localStart, readSize);
      SliceOfTail(stream, |stream| - size, localStart, localStart + readSize);
    }

    method TryReadAt(begin: nat, target: array<byte>, count: nat) returns (r: ReadResult)
      requires Valid() && count <= target.Length && target != buffer
      modifies target
      ensures r == View().Read(begin, count)
      ensures Shows(target[..], stream, r) && target[r.count..] == old(target[r.count..])
    {
      hide Unrolled, Books.Balanced, ReaderList.Valid, State.NoLostWakeUp;
      if begin < writtenBytes {
        r := ReadKept(begin, target, count);
      } else if closed {
        r := CLOSED;
      } else {
        r := TIMEOUT;
      }
    }

    /** A read that does not wait. */
    method TryRead(begin: int, target: array<byte>, count: nat) returns (r: ReadResult)
      requires Valid() && -TWO_63 <= begin < TWO_63 && count <= target.Length && target != buffer
      modifies target
      ensures r == View().Read(TranslateBegin(begin, |stream|), count)
      ensures Shows(target[..], stream, r) && target[r.count..] == old(target[r.count..])
    {
      r := TryReadAt(TranslateBegin(begin, writtenBytes), target, count);
    }

    /** The first half of a blocking read: an answer that is there already, or a request that
        now waits for one. */
    method BeginRead(begin: int, target: array<byte>, count: nat) returns (r: ReadResult, request: ReadRequest?)
      requires Valid() && -TWO_63 <= begin < TWO_63
      requires count <= target.Length && target != buffer && target !in readers.Targets()
      modifies readers, target
      ensures Valid() && r == old(View()).Read(TranslateBegin(begin, |stream|), count)
      ensures Shows(target[..], stream, r) && target[r.count..] == old(target[r.count..])
      ensures r.isTimeout <==> request != null
      ensures request == null ==> View() == old(View()) && readers.heap == old(readers.heap)
      ensures request != null ==>
        && fresh(request) && !request.signalled && readers.heap == old(readers.heap) + {request}
        && request.begin == TranslateBegin(begin, |stream|) && request.target == target && request.count == count
        && View() == old(View()).Block(request)
    {
      hide Unrolled, Books.Balanced, TranslateBegin;
      var positiveBegin := TranslateBegin(begin, writtenBytes);
      r := TryReadAt(positiveBegin, target, count);
      request := null;
      if r.isTimeout {
        var reader := new ReadRequest(positiveBegin, target, count);
        readers.Add(reader);
        request := reader;
      }
    }

    /** The second half: what a woken reader returns. A reader whose wait has timed out cancels
        its request, even if it has been served in the meantime. */
    method EndRead(request: ReadRequest, timedOut: bool) returns (r: ReadResult)
      requires Valid() && (timedOut || request.signalled)
      modifies readers, request
      ensures Valid() && View() == if timedOut then old(View()).Cancel(request, true) else old(View())
      ensures r == if timedOut then TIMEOUT else old(request.result)
      ensures readers.heap <= old(readers.heap) && request.signalled == old(request.signalled)
    {
      if timedOut {
        readers.Cancel(request);
        return TIMEOUT;
      }
      r := request.result;
    }

    /** Ends the stream and turns every waiting reader away. */
    method Close()
      requires Valid()
      modifies this`closed, readers, readers.heap
      ensures Valid() && View() == old(View()).Close()
      ensures !old(closed) ==> forall r :: r in old(readers.heap) ==> r.signalled && r.result == CLOSED
    {
      if !closed {
        readers.Close();
        closed := true;
      }
    }
  }

  /** A write to an open buffer cannot be carried out exactly if the ring, once grown, has no cell, as
      the position to write at is then a division by zero: with a limit of 0, whatever is written. */
  lemma WritableIff(b: OutputBuffer, data: seq<byte>)
    requires b.Valid() && !b.closed
    ensures b.Writable(data) <==> b.Ledger().Grown(|data|) >= 1
    ensures b.maxCapacity == 0 ==> !b.Writable(data)
  {
    CellsIff(b.Ledger(), |data|);
  }

  /** However two buffers have come to the same stream under the same limit, whatever capacities
      they started from and in whatever portions the bytes arrived, their rings hold the same bytes,
      although these may lie in different cells. */
  lemma SameStreamSameContents(a: OutputBuffer, b: OutputBuffer)
    requires a.Valid() && b.Valid() && a.maxCapacity == b.maxCapacity && a.stream == b.stream
    ensures a.size == b.size && a.Contents() == b.Contents()
    ensures a.Contents() == a.stream[Oldest(a.maxCapacity, |a.stream|)..]
  {
  }
}
