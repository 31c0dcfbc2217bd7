/** The waiting list of blocked readers. */
module Readers {
  import opened Bytes
  import opened StreamSpec

  /** A blocked read. Requests are told apart by identity. */
  class ReadRequest {
    const begin: nat
    const count: nat
    const target: array<byte>
    var cancelled: bool
    var result: ReadResult
    var signalled: bool  // whether the condition this reader waits on has been signalled

    constructor (begin: nat, target: array<byte>, count: nat)
      ensures this.begin == begin && this.target == target && this.count == count
      ensures !cancelled && !signalled && result == DataAt(0, 0)
    {
      this.begin, this.target, this.count := begin, target, count;
      cancelled, signalled, result := false, false, DataAt(0, 0);
    }
  }

  /** The abstract waiting list: the entries in the heap, those among them that still wait,
      and the two counters. */
  datatype Queue = Queue(heap: set<ReadRequest>, live: set<ReadRequest>, heapSize: size64, activeCount: size64) {

    function Add(r: ReadRequest): Queue {
      Queue(heap + {r}, live + {r}, Inc64(heapSize), Inc64(activeCount))
    }

    /** Does `cancel` rebuild the heap, given the counter it has just decremented? */
    predicate Compacts(active: size64) {
      Wrap64(active * 8) < heapSize && heapSize > 1000
    }

    /** `cancel`: `compaction` says whether rebuilding the heap is in effect at all. */
    function Cancel(r: ReadRequest, compaction: bool): Queue {
      var active := Dec64(activeCount);
      if compaction && Compacts(active) then
        Queue(live - {r}, live - {r}, active, active)
      else
        Queue(heap, live - {r}, heapSize, active)
    }

    /** The entries that a write up to `total` takes out of the heap. */
    function Passed(total: nat): set<ReadRequest> {
      set r | r in heap && r.begin < total
    }

    /** The waiting readers among them. */
    function Served(total: nat): set<ReadRequest> {
      set r | r in live && r.begin < total
    }

    function Process(total: nat): Queue {
      Queue(heap - Passed(total), live - Served(total),
            Down64(heapSize, |Passed(total)|), Down64(activeCount, |Served(total)|))
    }
  }

  const EMPTY_QUEUE := Queue({}, {}, 0, 0)

  lemma {:induction false} EarliestExists(heap: set<ReadRequest>) returns (r: ReadRequest)
    requires heap != {}
    ensures r in heap && forall q :: q in heap ==> r.begin <= q.begin
  {
    r :| r in heap;
    if heap != {r} {
      var q := EarliestExists(heap - {r});
      r := if q.begin < r.begin then q else r;
    }
  }

  /** Readers that wait at the same time have arrays of their own to be filled. */
  ghost predicate DistinctTargets(readers: set<ReadRequest>) {
    forall p, q :: p in readers && q in readers && p != q ==> p.target != q.target
  }

  /** What a reader served just now has got: its own position, and the bytes of the stream from
      there on, as many as it asked for or as there are. */
  ghost predicate Answered(r: ReadRequest, stream: seq<byte>)
    reads r, r.target
  {
    && r.begin < |stream| && r.signalled
    && r.result == DataAt(r.begin, Min(r.count, |stream| - r.begin))
    && Shows(r.target[..], stream, r.result)
  }

  lemma RemoveOne(s: set<ReadRequest>, r: ReadRequest)
    requires r in s
    ensures |s - {r}| == |s| - 1
  {
  }

  lemma AddOne(s: set<ReadRequest>, r: ReadRequest)
    requires r !in s
    ensures |s + {r}| == |s| + 1
  {
  }

  lemma SplitSize(s: set<ReadRequest>, gone: set<ReadRequest>, kept: set<ReadRequest>)
    requires forall r :: r in s <==> r in gone || r in kept
    requires gone !! kept
    ensures |s| == |gone| + |kept|
  {
    assert s == gone + kept;
  }

  /** The counters after `popped` entries have left the queue, `served` of them still waiting. */
  ghost predicate Reduced(before: Queue, after: Queue, popped: nat, served: nat) {
    && |after.heap| + popped == |before.heap| && after.heapSize == Down64(before.heapSize, popped)
    && |after.live| + served == |before.live| && after.activeCount == Down64(before.activeCount, served)
  }

  lemma NothingReduced(q: Queue)
    ensures Reduced(q, q, 0, 0)
  {
  }

  lemma ReducedByOne(before: Queue, now: Queue, popped: nat, served: nat, r: ReadRequest, after: Queue)
    requires Reduced(before, now, popped, served) && r in now.heap
    requires after.heap == now.heap - {r} && after.heapSize == Dec64(now.heapSize)
    requires after.live == now.live - {r}
    requires after.activeCount == if r in now.live then Dec64(now.activeCount) else now.activeCount
    ensures Reduced(before, after, popped + 1, if r in now.live then served + 1 else served)
  {
    RemoveOne(now.heap, r);
    if r in now.live {
      RemoveOne(now.live, r);
    } else {
      assert now.live - {r} == now.live;
    }
  }

  /** A queue that has lost exactly the entries before `total` has been processed. */
  lemma Drained(before: Queue, after: Queue, total: nat, popped: nat, served: nat)
    requires Reduced(before, after, popped, served)
    requires forall r :: r in after.heap <==> r in before.heap && r.begin >= total
    requires forall r :: r in after.live <==> r in before.live && r in after.heap
    requires before.live <= before.heap
    ensures after == before.Process(total)
  {
    hide Down64;
    SplitSize(before.heap, before.Passed(total), after.heap);
    SplitSize(before.live, before.Served(total), after.live);
    assert after.heap == before.heap - before.Passed(total);
    assert after.live == before.live - before.Served(total);
  }

  class ReaderList {
    var heap: set<ReadRequest>  // the pairing heap: any order among equal positions is possible
    var heapSize: size64
    var activeCount: size64
    ghost var live: set<ReadRequest>  // the entries that have not been cancelled

    ghost function View(): Queue
      reads this
    {
      Queue(heap, live, heapSize, activeCount)
    }

    /** The arrays that a later write may fill: only those of readers that still wait. */
    ghost function Targets(): set<array<byte>>
      reads this
    {
      set r | r in live :: r.target
    }

    ghost predicate Valid()
      reads this, heap
    {
      && live <= heap
      && (forall r :: r in heap ==> r.cancelled == (r !in live))
      && (forall r :: r in live ==> !r.signalled && r.count <= r.target.Length)
      && DistinctTargets(live)
    }

    constructor ()
      ensures Valid() && heap == {} && View() == EMPTY_QUEUE
    {
      heap, live, heapSize, activeCount := {}, {}, 0, 0;
    }

    method Top() returns (r: ReadRequest)
      requires heap != {}
      ensures r in heap && forall q :: q in heap ==> r.begin <= q.begin
    {
      ghost var earliest := EarliestExists(heap);
      r :| r in heap && forall q :: q in heap ==> r.begin <= q.begin;
    }

    method Add(r: ReadRequest)
      requires Valid() && r !in heap && !r.cancelled && !r.signalled
      requires r.count <= r.target.Length && r.target !in Targets()
      modifies this
      ensures Valid() && heap == old(heap) + {r} && View() == old(View()).Add(r)
    {
      heap, live := heap + {r}, live + {r};
      heapSize := Inc64(heapSize);
      activeCount := Inc64(activeCount);
    }

    method Cancel(r: ReadRequest)
      requires Valid()
      modifies this, r
      ensures Valid() && View() == old(View()).Cancel(r, true)
      ensures heap <= old(heap) && r.cancelled && r.result == old(r.result) && r.signalled == old(r.signalled)
    {
      activeCount := Dec64(activeCount);
      r.cancelled := true;
      live := live - {r};
      if Wrap64(activeCount * 8) < heapSize && heapSize > 1000 {
        var newHeap: set<ReadRequest> := {};
        var rest := heap;
        while rest != {}
          invariant rest <= heap && newHeap == live - rest
        {
          var item :| item in rest;
          if !item.cancelled {
            newHeap := newHeap + {item};
          }
          rest := rest - {item};
        }
        heap := newHeap;
        heapSize := activeCount;
      }
    }

    method Close()
      requires Valid()
      modifies this, heap
      ensures Valid() && heap == {} && View() == EMPTY_QUEUE
      ensures forall r :: r in old(heap) ==>
        r.result == CLOSED && r.signalled && r.cancelled == old(r.cancelled)
    {
      while heap != {}
        invariant heap <= old(heap)
        invariant forall r :: r in old(heap) ==> r.cancelled == old(r.cancelled)
        invariant forall r :: r in old(heap) - heap ==> r.result == CLOSED && r.signalled
        decreases heap
      {
        var item := Top();
        item.result := CLOSED;
        item.signalled := true;
        heap := heap - {item};
      }
      heapSize, activeCount, live := 0, 0, {};
    }

    /** One round of `process`: answers the reader at the top from `data`, unless it was
        cancelled, and pops it. */
    method Pop(reader: ReadRequest, ghost others: set<ReadRequest>, ghost stream: seq<byte>, from: nat, data: seq<byte>)
      requires from <= |stream| && data == stream[from..]
      requires Valid() && reader in heap && from <= reader.begin < |stream|
      requires forall r :: r in others ==> r !in heap && Answered(r, stream) && (reader in live ==> r.target != reader.target)
      modifies this, reader, if reader.cancelled then {} else {reader.target}
      ensures Valid() && heap == old(heap) - {reader} && live == old(live) - {reader}
      ensures heapSize == Dec64(old(heapSize))
      ensures activeCount == if reader in old(live) then Dec64(old(activeCount)) else old(activeCount)
      ensures reader in old(live) ==> Answered(reader, stream)
      ensures forall r :: r in others ==> Answered(r, stream)
    {
      if !reader.cancelled {
        var n := Min(reader.count, from + |data| - reader.begin);
        reader.result := DataAt(reader.begin, n);
        Memcpy(reader.target, 0, data[reader.begin - from..][..n]);
        reader.signalled := true;
        assert data[reader.begin - from..][..n] == stream[reader.begin..reader.begin + n];
        activeCount := Dec64(activeCount);
      }
      heap, live := heap - {reader}, live - {reader};
      heapSize := Dec64(heapSize);
    }

    /** One round of the loop of `process`, with the books about `popped` and `served` entries. */
    method PopNext(reader: ReadRequest, ghost queue: Queue, ghost stream: seq<byte>, from: nat, data: seq<byte>, ghost popped: nat, ghost served: nat)
      returns (ghost servedNow: nat)
      requires from <= |stream| && data == stream[from..]
      requires Valid() && reader in heap && from <= reader.begin < |stream| && DistinctTargets(queue.live)
      requires forall r :: r in live <==> r in queue.live && r in heap
      requires Reduced(queue, View(), popped, served)
      requires forall r :: r in queue.live && r !in heap ==> Answered(r, stream)
      modifies this, reader, if reader.cancelled then {} else {reader.target}
      ensures Valid() && heap == old(heap) - {reader} && live == old(live) - {reader}
      ensures Reduced(queue, View(), popped + 1, servedNow)
      ensures forall r :: r in queue.live && r !in heap ==> Answered(r, stream)
    {
      hide Answered, Reduced, Down64;
      ghost var now := View();
      Pop(reader, queue.live - heap, stream, from, data);
      ReducedByOne(queue, now, popped, served, reader, View());
      servedNow := if reader in now.live then served + 1 else served;
    }

    /** The loop of `process`: pops entries while the write reaches the earliest one. Returns how
        many entries were popped, and how many readers were served. */
    method Drain(writtenBytes: nat, ghost stream: seq<byte>, from: nat, data: seq<byte>)
      returns (ghost popped: nat, ghost served: nat)
      requires from <= |stream| == writtenBytes && data == stream[from..]
      requires Valid() && forall r :: r in heap ==> from <= r.begin
      modifies this, heap, Targets()
      ensures Valid()
      ensures forall r :: r in heap <==> r in old(heap) && r.begin >= |stream|
      ensures forall r :: r in live <==> r in old(live) && r in heap
      ensures Reduced(old(View()), View(), popped, served)
      ensures forall r :: r in old(live) && r !in heap ==> Answered(r, stream)
    {
      hide Answered, Reduced, Down64, DistinctTargets;
      popped, served := 0, 0;
      ghost var queue := View();
      NothingReduced(queue);
      while heap != {}
        invariant Valid() && heap <= queue.heap
        invariant forall r :: r in queue.heap && r !in heap ==> r.begin < |stream|
        invariant forall r :: r in live <==> r in queue.live && r in heap
        invariant Reduced(queue, View(), popped, served)
        invariant forall r :: r in queue.live && r !in heap ==> Answered(r, stream)
        decreases heap
      {
        var reader := Top();
        if reader.begin >= writtenBytes { break; }
        served := PopNext(reader, queue, stream, from, data, popped, served);
        popped := popped + 1;
      }
    }

    /** Serves every waiting reader that the bytes `data`, written at position `from`, reach,
        straight from `data`, and drops those readers and all cancelled ones passed on the way. */
    method Process(writtenBytes: nat, ghost stream: seq<byte>, from: nat, data: seq<byte>)
      requires from <= |stream| == writtenBytes && data == stream[from..]
      requires Valid() && forall r :: r in heap ==> from <= r.begin
      modifies this, heap, Targets()
      ensures Valid() && View() == old(View()).Process(|stream|) && heap <= old(heap) && live <= old(live)
      ensures forall r :: r in old(View()).Served(|stream|) ==> Answered(r, stream)
    {
      hide Reduced, Answered, Queue.Process, DistinctTargets;
      ghost var queue := View();
      ghost var popped, served := Drain(writtenBytes, stream, from, data);
      Drained(queue, View(), |stream|, popped, served);
    }
  }
}
