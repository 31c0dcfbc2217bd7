/** Circular storage: which bytes a ring holds, and what wrapped copies do to them. */
module Ring {
  import opened Bytes

  /** The bytes of a ring of `capacity` cells that starts at `head` and holds `size` bytes. */
  function Unrolled(cells: seq<byte>, capacity: nat, head: nat, size: nat): (r: seq<byte>)
    requires head <= capacity <= |cells| && size <= capacity
    ensures |r| == size
  {
    if head + size <= capacity then cells[head..head + size]
    else cells[head..capacity] + cells[..head + size - capacity]
  }

  /** Where the cell `offset` places after `head` lies. */
  function Cell(capacity: nat, head: nat, offset: nat): nat {
    if head + offset < capacity then head + offset else head + offset - capacity
  }

  lemma UnrolledAt(cells: seq<byte>, capacity: nat, head: nat, size: nat, i: nat)
    requires head < capacity <= |cells| && i < size <= capacity
    ensures Unrolled(cells, capacity, head, size)[i] == cells[Cell(capacity, head, i)]
  {
  }

  /** The remainder of a division, under a name that proofs can hide. */
  function Remainder(x: nat, divisor: nat): (r: nat)
    requires divisor > 0
    ensures r < divisor
  {
    x % divisor
  }

  lemma WithinOnce(rest: nat, divisor: nat)
    requires rest < divisor
    ensures rest % divisor == rest
  {
  }

  lemma OnceAround(rest: nat, divisor: nat)
    requires rest < divisor
    ensures (rest + divisor) % divisor == rest
  {
    assert rest + divisor == 1 * divisor + rest;
  }

  lemma RemainderIsCell(capacity: nat, head: nat, offset: nat)
    requires head < capacity && offset <= capacity
    ensures Remainder(head + offset, capacity) == Cell(capacity, head, offset)
  {
    if head + offset < capacity {
      WithinOnce(head + offset, capacity);
    } else {
      var rest := head + offset - capacity;
      assert head + offset == rest + capacity;
      OnceAround(rest, capacity);
    }
  }

  /** The cells after `data` has been copied behind the content, wrapping at the end. */
  function Stored(cells: seq<byte>, capacity: nat, tail: nat, data: seq<byte>): (r: seq<byte>)
    requires tail < capacity <= |cells| && |data| <= capacity
    ensures |r| == |cells|
  {
    if |data| <= capacity - tail then
      cells[..tail] + data + cells[tail + |data|..]
    else
      data[capacity - tail..] + cells[|data| - (capacity - tail)..tail] + data[..capacity - tail] + cells[capacity..]
  }

  lemma StoredAt(cells: seq<byte>, capacity: nat, head: nat, size: nat, data: seq<byte>, i: nat)
    requires head < capacity <= |cells| && i < size + |data| <= capacity
    ensures var tail := Cell(capacity, head, size);
      tail < capacity &&
      Stored(cells, capacity, tail, data)[Cell(capacity, head, i)]
      == if i < size then cells[Cell(capacity, head, i)] else data[i - size]
  {
    var tail, at := Cell(capacity, head, size), Cell(capacity, head, i);
    var after := Stored(cells, capacity, tail, data);
    if |data| <= capacity - tail {
      assert after == cells[..tail] + data + cells[tail + |data|..];
      assert i >= size ==> at == tail + (i - size);
      assert i < size ==> at < tail || at >= tail + |data|;
    } else {
      var first := capacity - tail;
      assert after == data[first..] + cells[|data| - first..tail] + data[..first] + cells[capacity..];
      assert i >= size ==> at == if i - size < first then tail + (i - size) else i - size - first;
      assert i < size ==> |data| - first <= at < tail;
    }
  }

  lemma StoredAppends(cells: seq<byte>, capacity: nat, head: nat, size: nat, data: seq<byte>)
    requires head < capacity <= |cells| && size + |data| <= capacity
    ensures var tail := Cell(capacity, head, size);
      tail < capacity &&
      Unrolled(Stored(cells, capacity, tail, data), capacity, head, size + |data|)
      == Unrolled(cells, capacity, head, size) + data
  {
    var tail := Cell(capacity, head, size);
    var before, after := Unrolled(cells, capacity, head, size), Stored(cells, capacity, tail, data);
    forall i | 0 <= i < size + |data|
      ensures Unrolled(after, capacity, head, size + |data|)[i] == (before + data)[i]
    {
      StoredAt(cells, capacity, head, size, data, i);
      UnrolledAt(after, capacity, head, size + |data|, i);
      if i < size {
        UnrolledAt(cells, capacity, head, size, i);
      }
    }
  }

  /** Dropping bytes from the front of a ring moves its head. */
  lemma DropMovesHead(cells: seq<byte>, capacity: nat, head: nat, size: nat, n: nat)
    requires head < capacity <= |cells| && n <= size <= capacity
    ensures var head' := Cell(capacity, head, n);
      head' < capacity && Unrolled(cells, capacity, head', size - n) == Unrolled(cells, capacity, head, size)[n..]
  {
    hide Unrolled;
    var head' := Cell(capacity, head, n);
    forall i | 0 <= i < size - n
      ensures Unrolled(cells, capacity, head', size - n)[i] == Unrolled(cells, capacity, head, size)[n..][i]
    {
      UnrolledAt(cells, capacity, head', size - n, i);
      UnrolledAt(cells, capacity, head, size, n + i);
    }
  }

  /** Keeping only the first bytes of a ring. */
  lemma TakeKeepsHead(cells: seq<byte>, capacity: nat, head: nat, size: nat, n: nat)
    requires head < capacity <= |cells| && n <= size <= capacity
    ensures Unrolled(cells, capacity, head, n) == Unrolled(cells, capacity, head, size)[..n]
  {
  }

  lemma OnePiece(cells: seq<byte>, capacity: nat, tail: nat, data: seq<byte>)
    requires tail < capacity <= |cells| && |data| <= capacity - tail
    ensures Stored(cells, capacity, tail, data) == cells[..tail] + data + cells[tail + |data|..]
  {
  }

  /** Overwriting the start of the ring once its end has been filled. */
  lemma TwoPieces(cells: seq<byte>, capacity: nat, tail: nat, data: seq<byte>, once: seq<byte>)
    requires tail < capacity <= |cells| && capacity - tail < |data| <= capacity
    requires once == cells[..tail] + data[..capacity - tail] + cells[capacity..]
    ensures Stored(cells, capacity, tail, data) == data[capacity - tail..] + once[|data| - (capacity - tail)..]
  {
    var first, rest := data[..capacity - tail], data[capacity - tail..];
    assert once == cells[..tail] + (first + cells[capacity..]);
    DropWithin(cells[..tail], first + cells[capacity..], |rest|);
    assert cells[..tail][|rest|..] == cells[|rest|..tail];
  }

  /** Copies `data` into the ring at `tail`, in two pieces if it does not fit before the end. */
  method CopyIn(ring: array<byte>, capacity: nat, tail: nat, data: seq<byte>)
    requires tail < capacity <= ring.Length && |data| <= capacity
    modifies ring
    ensures ring[..] == Stored(old(ring[..]), capacity, tail, data)
  {
    hide Stored;
    var rightSize := capacity - tail;
    ghost var cells := ring[..];
    if |data| <= rightSize {
      OnePiece(cells, capacity, tail, data);
      Memcpy(ring, tail, data);
      assert ring[..] == cells[..tail] + data + cells[tail + |data|..];
    } else {
      Memcpy(ring, tail, data[..rightSize]);
      ghost var once := ring[..];
      assert once == cells[..tail] + data[..rightSize] + cells[capacity..];
      TwoPieces(cells, capacity, tail, data, once);
      var rest := data[rightSize..];
      Memcpy(ring, 0, rest);
      assert once[..0] + rest + once[|rest|..] == rest + once[|rest|..];
    }
  }

  /** Copies `n` bytes of the ring, from `front` on, to the start of `target`, in two pieces if
      they wrap. */
  method CopyOut(ring: array<byte>, capacity: nat, front: nat, n: nat, target: array<byte>)
    requires front <= capacity <= ring.Length && n <= capacity && n <= target.Length && ring != target
    modifies target
    ensures target[..] == Unrolled(ring[..], capacity, front, n) + old(target[n..])
  {
    var rightSize := capacity - front;
    ghost var rest := target[n..];
    if n <= rightSize {
      Memcpy(target, 0, ring[front..front + n]);
    } else {
      Memcpy(target, 0, ring[front..capacity]);
      assert target[n..] == rest && target[..rightSize] == ring[front..capacity];
      Memcpy(target, rightSize, ring[..n - rightSize]);
    }
    assert target[n..] == rest;
  }

  lemma SliceOfTail(stream: seq<byte>, from: nat, i: nat, j: nat)
    requires from <= |stream| && i <= j <= |stream| - from
    ensures stream[from..][i..j] == stream[from + i..from + j]
  {
  }

  lemma DropWithin(a: seq<byte>, b: seq<byte>, n: nat)
    requires n <= |a|
    ensures (a + b)[n..] == a[n..] + b
  {
  }

  lemma DropPast(a: seq<byte>, b: seq<byte>, n: nat)
    requires |a| <= n <= |a| + |b|
    ensures (a + b)[n..] == b[n - |a|..]
  {
  }

  /** The last bytes of a stream, after more bytes have been appended and some of the oldest
      have been dropped. */
  lemma TailAfterAppend(stream: seq<byte>, size: nat, data: seq<byte>, dropped: nat)
    requires size <= |stream| && dropped <= size + |data|
    ensures (stream[|stream| - size..] + data)[dropped..] == (stream + data)[|stream| - size + dropped..]
  {
  }
}
