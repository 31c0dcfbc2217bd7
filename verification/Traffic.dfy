/** The output buffer together with all the calls under way: each critical section of the buffer is
    one event of its history, and what a blocked call finds when it wakes is what that history says. */
module Traffic {
  import opened Bytes
  import opened StreamSpec
  import opened Ring
  import opened Growth
  import opened Readers
  import opened BufferSpec
  import opened Buffering
  import opened BufferRuns

  /** A call that blocked and has not returned. */
  predicate Pending(w: World, r: ReadRequest) {
    r in w.blocked && r !in w.returned
  }

  /** A call whose reader has left the queue finds its answer and its bytes. */
  ghost predicate Delivered(r: ReadRequest, f: Fate)
    reads r, r.target
  {
    f.Expired? ||
    (&& r.signalled && r.result == Told(r, f)
     && (f.Served? ==> |f.bytes| <= r.target.Length && r.target[..|f.bytes|] == f.bytes))
  }

  /** A reader that has left the queue, and its array, are out of the buffer's reach. */
  ghost predicate Apart(r: ReadRequest, buffer: OutputBuffer)
    reads buffer, buffer.readers
  {
    && r !in buffer.readers.heap && r.target != buffer.buffer
    && forall q :: q in buffer.readers.live ==> q.target != r.target
  }

  ghost predicate AllDelivered(buffer: OutputBuffer, w: World)
    reads buffer, buffer.readers, w.fate.Keys, set r | r in w.fate :: r.target
  {
    forall r :: r in w.fate && r !in w.returned ==> Delivered(r, w.fate[r]) && Apart(r, buffer)
  }

  ghost predicate Matches(buffer: OutputBuffer, w: World)
    reads buffer, buffer.buffer, buffer.readers, buffer.readers.heap, w.fate.Keys, set r | r in w.fate :: r.target
  {
    buffer.Valid() && buffer.View() == w.s && Sound(w) && AllDelivered(buffer, w)
  }

  /** All that the calls may change. */
  ghost function Reach(buffer: OutputBuffer, w: World): set<object>
    reads buffer, buffer.readers
  {
    buffer.Footprint() + w.blocked
  }

  /** An array that neither the buffer nor a call under way uses. */
  ghost predicate Private(target: array<byte>, buffer: OutputBuffer, w: World)
    reads buffer
  {
    target != buffer.buffer && forall r :: r in w.blocked && r !in w.returned ==> r.target != target
  }

  /** The calls reach nothing but what they reached before, what is new, and the given arrays. */
  twostate predicate ConfinedBut(buffer: OutputBuffer, new w: World, new w': World, new own: set<array<byte>>)
    reads buffer, buffer.readers
  {
    && (buffer.buffer == old(buffer.buffer) || fresh(buffer.buffer))
    && (forall r :: r in w'.blocked ==> r in w.blocked || fresh(r))
    && (forall r :: r in w'.blocked && r !in w'.returned ==> r in w.blocked || r.target in own || fresh(r.target))
    && (forall r :: r in buffer.readers.heap ==> r in old(buffer.readers.heap) || fresh(r))
    && (forall r :: r in buffer.readers.live ==> r in old(buffer.readers.live) || r.target in own || fresh(r.target))
    && (forall r :: r in w.returned ==> r in w'.returned)
  }

  twostate predicate Confined(buffer: OutputBuffer, new w: World, new w': World)
    reads buffer, buffer.readers
  {
    ConfinedBut(buffer, w, w', {})
  }

  lemma AnsweredAreDelivered(readers: set<ReadRequest>, stream: seq<byte>, before: nat)
    requires forall r :: r in readers ==> Answered(r, stream)
    ensures forall r :: r in readers ==> r.begin <= |stream| && Delivered(r, Served(before, |stream|, Portion(stream, r)))
  {
  }

  /** Readers that have just left the queue are out of the buffer's reach. */
  lemma LeaversAreApart(buffer: OutputBuffer, live: set<ReadRequest>)
    requires DistinctTargets(live) && buffer.readers.live <= live
    requires forall r :: r in live ==> r.target != buffer.buffer
    ensures forall r :: r in live && r !in buffer.readers.heap && r !in buffer.readers.live ==> Apart(r, buffer)
  {
  }

  lemma WriteDelivers(buffer: OutputBuffer, w: World, data: seq<byte>)
    requires Sound(w) && AllDelivered(buffer, w) && !w.s.closed && buffer.View() == w.s.Write(data)
    requires forall r :: r in w.s.queue.Served(|buffer.stream|) ==> Answered(r, buffer.stream) && Apart(r, buffer)
    ensures AllDelivered(buffer, AfterWrite(w, data))
  {
    hide Answered, Delivered, Apart, Queue.Process, FateIsRight, ReturnsRight;
    AnsweredAreDelivered(w.s.queue.Served(|buffer.stream|), buffer.stream, |w.s.stream|);
  }

  /** A write leaves alone what readers that had left have been given, and answers those it passes. */
  method WriteThrough(buffer: OutputBuffer, ghost w: World, data: seq<byte>) returns (ok: bool)
    requires Matches(buffer, w) && buffer.Writable(data) && |buffer.stream| + |data| < TWO_63
    modifies buffer.Footprint()
    ensures buffer.Valid() && buffer.View() == w.s.Write(data) && AllDelivered(buffer, w) && ok == !w.s.closed
    ensures ok ==> forall r :: r in w.s.queue.Served(|buffer.stream|) ==> Answered(r, buffer.stream) && Apart(r, buffer)
    ensures buffer.capacity >= old(buffer.capacity) && (buffer.buffer == old(buffer.buffer) || fresh(buffer.buffer))
  {
    hide Answered, Delivered, Unrolled, Books.Balanced, Down64, FateIsRight, ReturnsRight;
    ghost var live := buffer.readers.live;
    ok := buffer.Write(data);
    assert forall r :: r in w.fate && r !in w.returned ==> Delivered(r, w.fate[r]);
    LeaversAreApart(buffer, live);
  }

  method Write(buffer: OutputBuffer, ghost w: World, data: seq<byte>) returns (ok: bool)
    requires Matches(buffer, w) && buffer.Writable(data) && |buffer.stream| + |data| < TWO_63
    modifies buffer.Footprint()
    ensures Matches(buffer, AfterWrite(w, data)) && Confined(buffer, w, AfterWrite(w, data))
    ensures ok == !old(buffer.closed) && buffer.capacity >= old(buffer.capacity)
  {
    hide Answered, AllDelivered, Unrolled, Books.Balanced, Down64, Sound;
    ok := WriteThrough(buffer, w, data);
    WriteIsSound(w, data);
    if ok {
      WriteDelivers(buffer, w, data);
    }
  }

  method TimeOut(buffer: OutputBuffer, ghost w: World, request: ReadRequest) returns (r: ReadResult)
    requires Matches(buffer, w) && Possible(w, Event.TimeOut(request))
    modifies buffer.readers, request
    ensures r == TIMEOUT && Matches(buffer, AfterTimeOut(w, request, true)) && Confined(buffer, w, AfterTimeOut(w, request, true))
    ensures buffer.capacity == old(buffer.capacity)
  {
    hide Delivered, Unrolled, Books.Balanced, FateIsRight, ReturnsRight, Queue.Compacts;
    r := buffer.EndRead(request, true);
    TimeOutIsSound(w, request, true);
  }

  /** A reader that has left the queue without timing out has an answer. */
  lemma LeftWithAnswer(w: World, r: ReadRequest)
    requires Sound(w) && r in w.fate && r !in w.returned
    ensures r in w.blocked && r !in w.s.queue.live && !w.fate[r].Expired? && FateIsRight(w.s, w.returned, r, w.fate[r])
  {
  }

  method Return(buffer: OutputBuffer, ghost w: World, request: ReadRequest) returns (r: ReadResult)
    requires Matches(buffer, w) && Possible(w, Event.Return(request))
    modifies buffer.readers, request
    ensures r == Told(request, w.fate[request]) && Matches(buffer, AfterReturn(w, request)) && Confined(buffer, w, AfterReturn(w, request))
    ensures w.fate[request].Served? ==> r.count <= request.target.Length && request.target[..r.count] == w.fate[request].bytes
  {
    hide Unrolled, Books.Balanced, FateIsRight, ReturnsRight;
    LeftWithAnswer(w, request);
    r := buffer.EndRead(request, false);
    ReturnIsSound(w, request);
  }

  lemma CloseDelivers(buffer: OutputBuffer, w: World)
    requires Sound(w) && AllDelivered(buffer, w) && !w.s.closed && buffer.View() == w.s.Close()
    requires forall r :: r in w.s.queue.live ==> r.signalled && r.result == CLOSED && Apart(r, buffer)
    ensures AllDelivered(buffer, AfterClose(w))
  {
    hide Apart, FateIsRight, ReturnsRight;
  }

  method CloseThrough(buffer: OutputBuffer, ghost w: World)
    requires Matches(buffer, w)
    modifies buffer.Footprint()
    ensures buffer.Valid() && buffer.View() == w.s.Close() && AllDelivered(buffer, w)
    ensures !w.s.closed ==> forall r :: r in w.s.queue.live ==> r.signalled && r.result == CLOSED && Apart(r, buffer)
    ensures buffer.capacity == old(buffer.capacity) && buffer.buffer == old(buffer.buffer)
  {
    hide Delivered, Unrolled, Books.Balanced, FateIsRight, ReturnsRight;
    ghost var live := buffer.readers.live;
    buffer.Close();
    assert forall r :: r in w.fate && r !in w.returned ==> Delivered(r, w.fate[r]);
    LeaversAreApart(buffer, live);
  }

  method Close(buffer: OutputBuffer, ghost w: World)
    requires Matches(buffer, w)
    modifies buffer.Footprint()
    ensures Matches(buffer, AfterClose(w)) && Confined(buffer, w, AfterClose(w))
    ensures buffer.capacity == old(buffer.capacity)
  {
    hide AllDelivered, Unrolled, Books.Balanced, Sound;
    CloseThrough(buffer, w);
    CloseIsSound(w);
    if !w.s.closed {
      CloseDelivers(buffer, w);
    }
  }

  /** An array for a new call. */
  method NewArray(buffer: OutputBuffer, ghost w: World, count: nat) returns (target: array<byte>)
    requires Matches(buffer, w)
    ensures fresh(target) && target.Length == count && Matches(buffer, w) && Private(target, buffer, w)
  {
    hide Sound, Unrolled, Books.Balanced, AllDelivered;
    target := new byte[count];
    assert AllDelivered(buffer, w);
  }

  method TryRead(buffer: OutputBuffer, ghost w: World, begin: int, target: array<byte>, count: nat) returns (r: ReadResult)
    requires Matches(buffer, w) && -TWO_63 <= begin < TWO_63 && count <= target.Length && Private(target, buffer, w)
    modifies target
    ensures Matches(buffer, w)
    ensures r == buffer.View().Read(TranslateBegin(begin, |buffer.stream|), count)
    ensures Shows(target[..], buffer.stream, r) && target[r.count..] == old(target[r.count..])
  {
    r := buffer.TryRead(begin, target, count);
  }

  lemma LiveArePending(w: World)
    requires Sound(w)
    ensures forall r :: r in w.s.queue.live ==> r in w.blocked && r !in w.returned && r !in w.fate
    ensures forall r :: r in w.returned ==> r in w.blocked
  {
  }

  /** A read that begins leaves alone what readers that had left have been given. */
  method BeginThrough(buffer: OutputBuffer, ghost w: World, begin: int, target: array<byte>, count: nat)
    returns (r: ReadResult, request: ReadRequest?)
    requires Matches(buffer, w) && -TWO_63 <= begin < TWO_63 && count <= target.Length && Private(target, buffer, w)
    modifies buffer.readers, target
    ensures r == old(buffer.View()).Read(TranslateBegin(begin, |buffer.stream|), count)
    ensures Shows(target[..], buffer.stream, r) && target[r.count..] == old(target[r.count..])
    ensures r.isTimeout <==> request != null
    ensures buffer.Valid() && AllDelivered(buffer, w)
    ensures request == null ==> buffer.View() == w.s && buffer.readers.heap == old(buffer.readers.heap)
    ensures request != null ==>
      && fresh(request) && !request.signalled && request.begin == TranslateBegin(begin, |buffer.stream|)
      && request.target == target && request.count == count
      && buffer.View() == w.s.Block(request) && Possible(w, Block(request))
  {
    hide Delivered, Unrolled, Books.Balanced, FateIsRight, ReturnsRight, TranslateBegin, Answer;
    LiveArePending(w);
    assert target !in buffer.readers.Targets();
    r, request := buffer.BeginRead(begin, target, count);
    assert forall q :: q in w.fate && q !in w.returned ==> Delivered(q, w.fate[q]);
  }

  lemma BlockDelivers(buffer: OutputBuffer, w: World, r: ReadRequest)
    requires AllDelivered(buffer, w)
    ensures AllDelivered(buffer, AfterBlock(w, r))
  {
  }

  method BeginRead(buffer: OutputBuffer, ghost w: World, begin: int, target: array<byte>, count: nat)
    returns (r: ReadResult, request: ReadRequest?)
    requires Matches(buffer, w) && -TWO_63 <= begin < TWO_63 && count <= target.Length && Private(target, buffer, w)
    modifies buffer.readers, target
    ensures r == old(buffer.View()).Read(TranslateBegin(begin, |buffer.stream|), count)
    ensures Shows(target[..], buffer.stream, r) && target[r.count..] == old(target[r.count..])
    ensures r.isTimeout <==> request != null
    ensures request == null ==> Matches(buffer, w) && ConfinedBut(buffer, w, w, {target})
    ensures request != null ==>
      && fresh(request) && !request.signalled && request.begin == TranslateBegin(begin, |buffer.stream|)
      && request.target == target && request.count == count
      && Possible(w, Block(request))
      && Matches(buffer, AfterBlock(w, request)) && ConfinedBut(buffer, w, AfterBlock(w, request), {target})
  {
    hide AllDelivered, Sound, OutputBuffer.Valid, TranslateBegin, Answer, Shows, Possible;
    r, request := BeginThrough(buffer, w, begin, target, count);
    if request != null {
      BlockIsSound(w, request);
      BlockDelivers(buffer, w, request);
    }
  }

  /** A read into an array of its own. */
  method ReadAnew(buffer: OutputBuffer, ghost w: World, begin: int, count: nat) returns (r: ReadResult, request: ReadRequest?)
    requires Matches(buffer, w) && -TWO_63 <= begin < TWO_63
    modifies buffer.readers
    ensures r == old(buffer.View()).Read(TranslateBegin(begin, |buffer.stream|), count)
    ensures r.isTimeout <==> request != null
    ensures request == null ==> Matches(buffer, w) && Confined(buffer, w, w)
    ensures request != null ==>
      && fresh(request) && Possible(w, Block(request))
      && Matches(buffer, AfterBlock(w, request)) && Confined(buffer, w, AfterBlock(w, request))
  {
    hide Sound, AllDelivered, TranslateBegin, Unrolled, Books.Balanced, Answer;
    var target := NewArray(buffer, w, count);
    r, request := BeginRead(buffer, w, begin, target, count);
  }

  // ---------- The same, with the whole history ----------

  function Calls(buffer: OutputBuffer, history: seq<Event>): World {
    Now(buffer.maxCapacity, history)
  }

  /** Does the buffer, with the calls under way, stand as this history says? */
  ghost predicate Mirrors(buffer: OutputBuffer, history: seq<Event>)
    reads buffer, buffer.buffer, buffer.readers, buffer.readers.heap
    reads Calls(buffer, history).fate.Keys, set r | r in Calls(buffer, history).fate :: r.target
  {
    Lawful(buffer.maxCapacity, history) && Matches(buffer, Calls(buffer, history))
  }

  /** A new buffer has an empty history. */
  lemma NewMirrors(buffer: OutputBuffer)
    requires buffer.Valid() && buffer.View() == Fresh(buffer.maxCapacity)
    ensures Mirrors(buffer, []) && Calls(buffer, []) == Start(buffer.maxCapacity)
  {
    Begun(buffer.maxCapacity);
    NowIsSound(buffer.maxCapacity, []);
  }

  /** At every moment of every run of the buffer itself, a call that has blocked either waits for
      bytes that are not there yet, unsignalled; or has been signalled and finds in its request and
      its array what it is to return, by the first write to pass it or by the close; or has returned, once: a timeout exactly if its wait has timed
      out, and otherwise what its request said. */
  lemma EveryCallIsAnswered(buffer: OutputBuffer, history: seq<Event>, r: ReadRequest)
    requires Mirrors(buffer, history) && r in Calls(buffer, history).blocked
    ensures var w := Calls(buffer, history);
      if r in buffer.readers.live then
        r !in w.returned && !r.signalled && r.begin >= |buffer.stream| && !buffer.closed
      else
        && r in w.fate && FateIsRight(w.s, w.returned, r, w.fate[r]) && w.s.stream == buffer.stream
        && (r !in w.returned ==>
              && r.signalled && r.result == Told(r, w.fate[r])
              && (w.fate[r].Served? ==> |w.fate[r].bytes| <= r.target.Length && r.target[..|w.fate[r].bytes|] == w.fate[r].bytes))
    ensures var w := Calls(buffer, history);
      r in w.fate && w.fate[r].Served? ==> exists k: nat :: ServedAt(Start(buffer.maxCapacity), history, true, r, w.fate[r], k)
    ensures Endings(history, r) == if r in Calls(buffer, history).returned then 1 else 0
    ensures var w := Calls(buffer, history);
      r in w.returned ==> r in w.fate && w.returned[r] == if Event.TimeOut(r) in history then TIMEOUT else Told(r, w.fate[r])
  {
    hide Run, Legal, Endings, Told, ServedAt;
    var cap := buffer.maxCapacity;
    StartIsSound(cap);
    EndsOnce(Start(cap), history, true, r);
    var w := Calls(buffer, history);
    if r in w.fate && r !in w.returned {
      LeftWithAnswer(w, r);
    }
    if r in w.fate && w.fate[r].Served? {
      var k := ServedByAWrite(Start(cap), history, true, r);
    }
  }
}
