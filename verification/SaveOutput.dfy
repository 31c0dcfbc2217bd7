/** From the program's output to the saved file: the pump that feeds the buffer, the close that
    follows it, and the loop that saves what the buffer has kept, while clients go on polling. */
module SaveOutput {
  import opened Bytes
  import opened StreamSpec
  import opened Readers
  import opened BufferSpec
  import opened Growth
  import opened Buffering
  import opened BufferRuns
  import opened Traffic
  import opened Polling

  /** What one read from the program's pipe gives: bytes, or the end of the pipe, or an error. */
  datatype PipeRead = Data(bytes: seq<byte>) | Ended

  /** The reads up to the first that gives nothing. */
  function Pumped(pipe: seq<PipeRead>): seq<byte> {
    if pipe == [] || pipe[0].Ended? || pipe[0].bytes == [] then []
    else pipe[0].bytes + Pumped(pipe[1..])
  }

  /** What clients do that poll the output: they start reads, give them up, and finish them. */
  predicate OnlyPolls(actions: seq<Action>) {
    forall i :: 0 <= i < |actions| ==> !actions[i].Put? && !actions[i].End?
  }

  lemma {:induction false} PollsChangeNothing(actions: seq<Action>, stream: seq<byte>, closed: bool)
    requires OnlyPolls(actions)
    ensures Effect(actions, stream, closed) == (stream, closed) && Volume(actions) == 0
    decreases |actions|
  {
    if actions != [] {
      PollsChangeNothing(actions[1..], stream, closed);
    }
  }

  /** Clients poll for a while. */
  method LetPoll(buffer: OutputBuffer, history: seq<Event>, polls: seq<Action>, ghost coming: nat) returns (now: seq<Event>)
    requires Ready(buffer, history, coming) && OnlyPolls(polls)
    modifies Reach(buffer, Calls(buffer, history))
    ensures Ready(buffer, now, coming) && Onward(buffer, history, now)
    ensures buffer.stream == old(buffer.stream) && buffer.closed == old(buffer.closed)
  {
    hide Ready, Onward, Calls;
    PollsChangeNothing(polls, buffer.stream, buffer.closed);
    now := Perform(buffer, history, polls, null, coming);
  }

  lemma ReadyForMore(buffer: OutputBuffer, history: seq<Event>, coming: nat)
    requires Ready(buffer, history, 0) && |buffer.stream| + coming < TWO_63
    ensures Ready(buffer, history, coming)
  {
  }

  /** One round of the pump: clients poll, then what the pipe has given is written. */
  method PumpOne(buffer: OutputBuffer, history: seq<Event>, polls: seq<Action>, data: seq<byte>, ghost coming: nat) returns (now: seq<Event>)
    requires Ready(buffer, history, |data| + coming) && OnlyPolls(polls) && !buffer.closed
    modifies Reach(buffer, Calls(buffer, history))
    ensures Ready(buffer, now, coming) && history <= now && Confined(buffer, Calls(buffer, history), Calls(buffer, now))
    ensures buffer.stream == old(buffer.stream) + data && !buffer.closed
  {
    hide Ready, Calls, Later, OutputBuffer.Valid;
    now := LetPoll(buffer, history, polls, |data| + coming);
    ReadyFits(buffer, now, |data| + coming);
    ReadyForLess(buffer, now, |data| + coming, |data|);
    now := PutByPump(buffer, now, data);
    ReadyForMore(buffer, now, coming);
  }

  lemma PumpedOn(before: seq<byte>, pipe: seq<PipeRead>, i: nat)
    requires i < |pipe| && pipe[i].Data? && pipe[i].bytes != []
    ensures Pumped(pipe[i..]) == pipe[i].bytes + Pumped(pipe[i + 1..])
    ensures before + Pumped(pipe[i..]) == (before + pipe[i].bytes) + Pumped(pipe[i + 1..])
  {
  }

  lemma NothingPumped(pipe: seq<PipeRead>, i: nat)
    requires i <= |pipe| && (i < |pipe| ==> pipe[i].Ended? || pipe[i].bytes == [])
    ensures Pumped(pipe[i..]) == []
  {
  }

  /** IOController::_run: writes to the buffer whatever the pipe gives, until it gives nothing. */
  method Pump(buffer: OutputBuffer, history: seq<Event>, pipe: seq<PipeRead>, polls: nat -> seq<Action>) returns (now: seq<Event>)
    requires Ready(buffer, history, |Pumped(pipe)|) && !buffer.closed && forall k :: OnlyPolls(polls(k))
    modifies Reach(buffer, Calls(buffer, history))
    ensures Ready(buffer, now, 0) && history <= now && Confined(buffer, Calls(buffer, history), Calls(buffer, now))
    ensures !buffer.closed && buffer.stream == old(buffer.stream) + Pumped(pipe)
  {
    hide Ready, Calls, OutputBuffer.Valid, Pumped;
    now := history;
    var i := 0;
    assert pipe[0..] == pipe;
    while i < |pipe| && pipe[i].Data? && pipe[i].bytes != []
      invariant 0 <= i <= |pipe| && history <= now
      invariant Ready(buffer, now, |Pumped(pipe[i..])|) && !buffer.closed
      invariant buffer.stream + Pumped(pipe[i..]) == old(buffer.stream) + Pumped(pipe)
      invariant Confined(buffer, Calls(buffer, history), Calls(buffer, now))
    {
      ghost var rest := Pumped(pipe[i + 1..]);
      PumpedOn(buffer.stream, pipe, i);
      now := PumpOne(buffer, now, polls(i), pipe[i].bytes, |rest|);
      i := i + 1;
    }
    NothingPumped(pipe, i);
  }

  /** The output file: the number of bytes announced as discarded, if any, and the saved output. */
  datatype File = File(discarded: nat, body: seq<byte>)

  /** What a read of a closed buffer at `begin` brings: the bytes from there on, or from the oldest
      that are kept, or the news that there are no more. */
  ghost predicate Fetched(cap: nat, stream: seq<byte>, begin: nat, count: nat, r: ReadResult, bytes: seq<byte>) {
    if begin >= |stream| then r.isClosed
    else
      && !r.isClosed && r.begin == Max(begin, Oldest(cap, |stream|))
      && r.count == |bytes| == Min(count, |stream| - r.begin)
      && Slice(stream, r.begin, bytes)
  }

  /** How far the loop has got: `body` holds what is kept before `begin`. */
  ghost predicate Saved(cap: nat, stream: seq<byte>, begin: nat, body: seq<byte>) {
    var discarded := Oldest(cap, |stream|);
    begin <= |stream| && Slice(stream, discarded, body) && Max(begin, discarded) == discarded + |body|
  }

  lemma SavedOn(cap: nat, stream: seq<byte>, begin: nat, body: seq<byte>, count: nat, r: ReadResult, bytes: seq<byte>)
    requires Saved(cap, stream, begin, body) && Fetched(cap, stream, begin, count, r, bytes) && cap >= 1 && count > 0
    ensures if r.isClosed then body == stream[Oldest(cap, |stream|)..]
      else begin < r.begin + r.count <= |stream| && Saved(cap, stream, r.begin + r.count, body + bytes)
  {
  }

  /** A blocking read of a closed buffer never waits: it brings the bytes from `begin` on, or from
      the oldest that are kept, or says that there are no more. */
  method ReadClosed(buffer: OutputBuffer, history: seq<Event>, begin: nat, target: array<byte>) returns (r: ReadResult, bytes: seq<byte>)
    requires Ready(buffer, history, 0) && buffer.closed && begin < TWO_63
    requires target.Length > 0 && Private(target, buffer, Calls(buffer, history))
    modifies buffer.readers, target
    ensures Ready(buffer, history, 0) && buffer.View() == old(buffer.View()) && !r.isTimeout
    ensures ConfinedBut(buffer, Calls(buffer, history), Calls(buffer, history), {target})
    ensures Fetched(buffer.maxCapacity, buffer.stream, begin, target.Length, r, bytes)
  {
    hide TranslateBegin, Ready, Calls, OutputBuffer.Valid, ConfinedBut, Private;
    ReadyFits(buffer, history, 0);
    var request, now;
    r, request, now := StartRead(buffer, history, begin, target, 0);
    bytes := target[..r.count];
  }

  lemma NothingSaved(cap: nat, stream: seq<byte>)
    ensures Saved(cap, stream, 0, [])
  {
  }

  /** The number of bytes to announce as discarded. */
  method Discarded(buffer: OutputBuffer, ghost history: seq<Event>) returns (n: nat)
    requires Ready(buffer, history, 0)
    ensures n == Oldest(buffer.maxCapacity, |buffer.stream|) && Ready(buffer, history, 0)
  {
    n := 0;
    if buffer.writtenBytes > buffer.size {
      n := buffer.writtenBytes - buffer.size;
    }
  }

  /** One round of saving: clients poll, then comes one blocking read. */
  method FetchSaved(buffer: OutputBuffer, history: seq<Event>, polls: seq<Action>, begin: nat, target: array<byte>)
    returns (r: ReadResult, bytes: seq<byte>, now: seq<Event>)
    requires Ready(buffer, history, 0) && buffer.closed && begin < TWO_63 && OnlyPolls(polls)
    requires target.Length > 0 && Private(target, buffer, Calls(buffer, history))
    modifies Reach(buffer, Calls(buffer, history)), target
    ensures Ready(buffer, now, 0) && history <= now && ConfinedBut(buffer, Calls(buffer, history), Calls(buffer, now), {target})
    ensures Private(target, buffer, Calls(buffer, now)) && buffer.stream == old(buffer.stream) && buffer.closed && !r.isTimeout
    ensures Fetched(buffer.maxCapacity, buffer.stream, begin, target.Length, r, bytes)
  {
    hide Ready, Calls, OutputBuffer.Valid, Slice, Later;
    now := LetPoll(buffer, history, polls, 0);
    assert Private(target, buffer, Calls(buffer, now));
    r, bytes := ReadClosed(buffer, now, begin, target);
  }

  /** The loop that saves, into `target` and from there to the file. */
  method SaveBody(buffer: OutputBuffer, history: seq<Event>, polls: nat -> seq<Action>, target: array<byte>)
    returns (body: seq<byte>, now: seq<Event>)
    requires Ready(buffer, history, 0) && buffer.closed && forall k :: OnlyPolls(polls(k))
    requires target.Length > 0 && Private(target, buffer, Calls(buffer, history))
    modifies Reach(buffer, Calls(buffer, history)), target
    ensures Ready(buffer, now, 0) && history <= now && buffer.stream == old(buffer.stream) && buffer.closed
    ensures body == buffer.stream[Oldest(buffer.maxCapacity, |buffer.stream|)..]
  {
    hide Ready, Calls, OutputBuffer.Valid, Private, Fetched, Saved;
    ReadyFits(buffer, history, 0);
    var begin, k := 0, 0;
    NothingSaved(buffer.maxCapacity, buffer.stream);
    var result, bytes;
    body := [];
    result, bytes, now := FetchSaved(buffer, history, polls(0), begin, target);
    while !result.isClosed
      invariant Ready(buffer, now, 0) && history <= now && ConfinedBut(buffer, Calls(buffer, history), Calls(buffer, now), {target})
      invariant Private(target, buffer, Calls(buffer, now)) && buffer.stream == old(buffer.stream) && buffer.closed
      invariant Saved(buffer.maxCapacity, buffer.stream, begin, body)
      invariant Fetched(buffer.maxCapacity, buffer.stream, begin, target.Length, result, bytes)
      decreases |buffer.stream| - begin
    {
      SavedOn(buffer.maxCapacity, buffer.stream, begin, body, target.Length, result, bytes);
      body := body + bytes;
      begin := result.begin + result.count;
      k := k + 1;
      result, bytes, now := FetchSaved(buffer, now, polls(k), begin, target);
    }
    SavedOn(buffer.maxCapacity, buffer.stream, begin, body, target.Length, result, bytes);
  }

  /** The saving part of MainApp::runApp. It never waits, it ends, and it writes exactly what the
      buffer has kept, under a header that counts exactly what it has not. */
  method Save(buffer: OutputBuffer, history: seq<Event>, polls: nat -> seq<Action>) returns (file: File, now: seq<Event>)
    requires Ready(buffer, history, 0) && buffer.closed && forall k :: OnlyPolls(polls(k))
    modifies Reach(buffer, Calls(buffer, history))
    ensures Ready(buffer, now, 0) && history <= now && buffer.stream == old(buffer.stream) && buffer.closed
    ensures file.discarded == Oldest(buffer.maxCapacity, |buffer.stream|)
    ensures file.body == buffer.stream[file.discarded..]
  {
    hide Ready, Calls, OutputBuffer.Valid, Private;
    var discarded := Discarded(buffer, history);
    var target := NewTarget(buffer, history, 8192, 0);
    var body;
    body, now := SaveBody(buffer, history, polls, target);
    file := File(discarded, body);
  }

  lemma NewReady(buffer: OutputBuffer, coming: nat)
    requires buffer.Valid() && buffer.View() == Fresh(buffer.maxCapacity)
    requires buffer.capacity >= 1 && buffer.maxCapacity >= 1 && coming < TWO_63
    ensures Ready(buffer, [], coming) && Reach(buffer, Calls(buffer, [])) == {buffer, buffer.buffer, buffer.readers}
  {
    NewMirrors(buffer);
  }

  /** The history holds what was written, and whether the buffer was closed. */
  lemma HistoryTells(buffer: OutputBuffer, history: seq<Event>)
    requires Ready(buffer, history, 0)
    ensures Lawful(buffer.maxCapacity, history)
    ensures Offered(history) == buffer.stream && (Close in history <==> buffer.closed)
  {
    hide AllDelivered, Sound, OutputBuffer.Valid, Run, Legal, Offered;
    var w0 := Start(buffer.maxCapacity);
    RunStream(w0, history, true);
    assert w0.s.stream + Offered(history) == Offered(history);
  }

  /** The life of the output in MainApp::runApp: the pump runs to its end before the buffer is
      closed, then the file is saved, and clients go on polling all the while. Whatever the program
      writes and in whatever portions, the file holds its last bytes, as many as the buffer may keep,
      and counts all the others. */
  method PumpCloseSave(bufferSize: nat, pipe: seq<PipeRead>, pumping: nat -> seq<Action>, saving: nat -> seq<Action>)
    returns (file: File, history: seq<Event>)
    requires bufferSize >= 1 && |Pumped(pipe)| < TWO_63
    requires forall k :: OnlyPolls(pumping(k)) && OnlyPolls(saving(k))
    ensures file.discarded == Oldest(bufferSize, |Pumped(pipe)|)
    ensures file.body == Pumped(pipe)[file.discarded..]
    ensures Lawful(bufferSize, history) && Offered(history) == Pumped(pipe) && Close in history
  {
    hide Calls, Ready, OutputBuffer.Valid;
    var buffer := new OutputBuffer(bufferSize);
    NewReady(buffer, |Pumped(pipe)|);
    history := Pump(buffer, [], pipe, pumping);
    assert buffer.stream == Pumped(pipe);
    history := EndByMain(buffer, history);
    file, history := Save(buffer, history, saving);
    HistoryTells(buffer, history);
  }
}
