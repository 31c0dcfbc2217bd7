/** The output buffer as its users see it: a stream, a retention limit and a waiting list. */
module BufferSpec {
  import opened Bytes
  import opened StreamSpec
  import opened Readers

  datatype State = State(cap: nat, stream: seq<byte>, closed: bool, queue: Queue) {

    /** A write to a closed buffer is refused and changes nothing. */
    function Write(data: seq<byte>): State {
      if closed then this
      else this.(stream := stream + data, queue := queue.Process(|stream + data|))
    }

    function Read(begin: nat, count: nat): ReadResult {
      Answer(cap, stream, closed, begin, count)
    }

    function Block(r: ReadRequest): State {
      this.(queue := queue.Add(r))
    }

    function Cancel(r: ReadRequest, compaction: bool): State {
      this.(queue := queue.Cancel(r, compaction))
    }

    function Close(): State {
      if closed then this else this.(closed := true, queue := EMPTY_QUEUE)
    }

    /** No entry, cancelled or not, waits for bytes that are already there. */
    ghost predicate NoLostWakeUp() {
      && queue.live <= queue.heap
      && (forall r :: r in queue.heap ==> r.begin >= |stream|)
      && (closed ==> queue.heap == {})
    }
  }

  lemma WriteKeepsPromise(s: State, data: seq<byte>)
    requires s.NoLostWakeUp()
    ensures s.Write(data).NoLostWakeUp()
  {
  }

  function Fresh(cap: nat): State {
    State(cap, [], false, EMPTY_QUEUE)
  }
}
