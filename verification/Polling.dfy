/** Polling the output over HTTP: the request handler of the server, while others write to the
    buffer, close it, and read from it between any two of its calls. */
module Polling {
  import opened Bytes
  import opened StreamSpec
  import opened Readers
  import opened BufferSpec
  import opened Buffering
  import opened BufferRuns
  import opened Traffic

  /** What other threads do to the buffer: the pump writes, the main thread closes, and other polls
      start a read, which may have to wait; give up a read, even one that has been served by then; or
      finish one. */
  datatype Action = Put(data: seq<byte>) | End | Read(begin: ssize64, count: nat) | GiveUp | Finish

  function Volume(actions: seq<Action>): nat {
    if actions == [] then 0
    else (if actions[0].Put? then |actions[0].data| else 0) + Volume(actions[1..])
  }

  function Volumes(rounds: seq<seq<Action>>): nat {
    if rounds == [] then 0 else Volume(rounds[0]) + Volumes(rounds[1..])
  }

  /** What one action, and what several, make of a stream and its closed flag. */
  function EffectOf(action: Action, stream: seq<byte>, closed: bool): (seq<byte>, bool) {
    match action
    case Put(data) => (if closed then stream else stream + data, closed)
    case End => (stream, true)
    case _ => (stream, closed)
  }

  function Effect(actions: seq<Action>, stream: seq<byte>, closed: bool): (seq<byte>, bool)
    decreases |actions|
  {
    if actions == [] then (stream, closed)
    else
      var (stream', closed') := EffectOf(actions[0], stream, closed);
      Effect(actions[1..], stream', closed')
  }

  /** The buffer as a poller finds it: as its history says, and with room in the counters for `coming`
      more bytes. */
  ghost predicate Ready(buffer: OutputBuffer, history: seq<Event>, coming: nat)
    reads buffer, buffer.buffer, buffer.readers, buffer.readers.heap
    reads Calls(buffer, history).fate.Keys, set r | r in Calls(buffer, history).fate :: r.target
  {
    && Mirrors(buffer, history) && buffer.capacity >= 1 && buffer.maxCapacity >= 1
    && |buffer.stream| + coming < TWO_63
  }

  lemma ReadyFits(buffer: OutputBuffer, history: seq<Event>, coming: nat)
    requires Ready(buffer, history, coming)
    ensures |buffer.stream| + coming < TWO_63 && buffer.maxCapacity >= 1
  {
  }

  lemma ReadyForLess(buffer: OutputBuffer, history: seq<Event>, coming: nat, less: nat)
    requires Ready(buffer, history, coming) && less <= coming
    ensures Ready(buffer, history, less)
  {
  }

  /** The pump writes. */
  method PutByPump(buffer: OutputBuffer, history: seq<Event>, data: seq<byte>) returns (now: seq<Event>)
    requires Ready(buffer, history, |data|)
    modifies buffer.Footprint()
    ensures Ready(buffer, now, 0) && now == history + [Write(data)]
    ensures Confined(buffer, Calls(buffer, history), Calls(buffer, now))
    ensures (buffer.stream, buffer.closed) == EffectOf(Put(data), old(buffer.stream), old(buffer.closed))
  {
    hide Now, Lawful, AllDelivered, Sound, Confined, Queue.Process, Queue.Served;
    var ok := Traffic.Write(buffer, Calls(buffer, history), data);
    GoesOn(buffer.maxCapacity, history, Write(data));
    now := history + [Write(data)];
  }

  /** The main thread closes the buffer. */
  method EndByMain(buffer: OutputBuffer, history: seq<Event>) returns (now: seq<Event>)
    requires Ready(buffer, history, 0)
    modifies buffer.Footprint()
    ensures Ready(buffer, now, 0) && now == history + [Close]
    ensures Confined(buffer, Calls(buffer, history), Calls(buffer, now))
    ensures (buffer.stream, buffer.closed) == EffectOf(End, old(buffer.stream), old(buffer.closed))
  {
    hide Now, Lawful, AllDelivered, Sound, Confined, Queue.Process, Queue.Served;
    Traffic.Close(buffer, Calls(buffer, history));
    GoesOn(buffer.maxCapacity, history, Close);
    now := history + [Close];
  }

  /** Another poll starts a read, and waits if it finds nothing. */
  method ReadByOther(buffer: OutputBuffer, history: seq<Event>, begin: ssize64, count: nat) returns (now: seq<Event>)
    requires Ready(buffer, history, 0)
    modifies buffer.readers
    ensures Ready(buffer, now, 0) && buffer.stream == old(buffer.stream) && buffer.closed == old(buffer.closed)
    ensures Confined(buffer, Calls(buffer, history), Calls(buffer, now))
    ensures if old(buffer.View()).Read(TranslateBegin(begin, |old(buffer.stream)|), count).isTimeout
      then |now| == |history| + 1 && history <= now && now[|history|].Block? && fresh(now[|history|].r)
      else now == history
  {
    hide Now, Lawful, AllDelivered, Sound, TranslateBegin, Confined;
    var r, request := ReadAnew(buffer, Calls(buffer, history), begin, count);
    now := history;
    if request != null {
      GoesOn(buffer.maxCapacity, history, Block(request));
      now := history + [Block(request)];
    }
  }

  /** Another poll's wait times out, whether or not its reader has been served by then, if there is
      another one under way. */
  method GiveUpByOther(buffer: OutputBuffer, history: seq<Event>, mine: ReadRequest?) returns (now: seq<Event>)
    requires Ready(buffer, history, 0)
    modifies buffer.readers, Calls(buffer, history).blocked
    ensures Ready(buffer, now, 0) && buffer.stream == old(buffer.stream) && buffer.closed == old(buffer.closed)
    ensures Confined(buffer, Calls(buffer, history), Calls(buffer, now))
    ensures if exists r :: r in Calls(buffer, history).blocked && Pending(Calls(buffer, history), r) && r != mine
      then |now| == |history| + 1 && history <= now && now[|history|].TimeOut? && now[|history|].r != mine
      else now == history
  {
    hide Now, Lawful, AllDelivered, Sound;
    var w := Calls(buffer, history);
    now := history;
    if other: ReadRequest :| other in w.blocked && Pending(w, other) && other != mine {
      var r := Traffic.TimeOut(buffer, w, other);
      GoesOn(buffer.maxCapacity, history, TimeOut(other));
      now := history + [TimeOut(other)];
    }
  }

  /** Another poll that has been answered takes its answer, if there is one. */
  method FinishByOther(buffer: OutputBuffer, history: seq<Event>, mine: ReadRequest?) returns (now: seq<Event>)
    requires Ready(buffer, history, 0)
    modifies buffer.readers, Calls(buffer, history).blocked
    ensures Ready(buffer, now, 0) && buffer.stream == old(buffer.stream) && buffer.closed == old(buffer.closed)
    ensures Confined(buffer, Calls(buffer, history), Calls(buffer, now))
    ensures if exists r :: r in Calls(buffer, history).fate && r !in Calls(buffer, history).returned && r != mine
      then |now| == |history| + 1 && history <= now && now[|history|].Return? && now[|history|].r != mine
      else now == history
  {
    hide Now, Lawful, AllDelivered, Sound;
    var w := Calls(buffer, history);
    now := history;
    if other: ReadRequest :| other in w.fate && other !in w.returned && other != mine {
      LeftWithAnswer(w, other);
      var r := Traffic.Return(buffer, w, other);
      GoesOn(buffer.maxCapacity, history, Return(other));
      now := history + [Return(other)];
    }
  }

  /** One action of another thread; `mine` is a call it has nothing to do with. */
  method Act(buffer: OutputBuffer, history: seq<Event>, action: Action, mine: ReadRequest?) returns (now: seq<Event>)
    requires Ready(buffer, history, Volume([action]))
    modifies Reach(buffer, Calls(buffer, history))
    ensures Ready(buffer, now, 0) && history <= now
    ensures Confined(buffer, Calls(buffer, history), Calls(buffer, now))
    ensures (buffer.stream, buffer.closed) == EffectOf(action, old(buffer.stream), old(buffer.closed))
    ensures mine != null && Pending(Calls(buffer, history), mine) ==> Pending(Calls(buffer, now), mine)
  {
    hide Now, Lawful, Matches, Confined;
    match action {
      case Put(data) => now := PutByPump(buffer, history, data);
      case End => now := EndByMain(buffer, history);
      case Read(begin, count) => now := ReadByOther(buffer, history, begin, count);
      case GiveUp => now := GiveUpByOther(buffer, history, mine);
      case Finish => now := FinishByOther(buffer, history, mine);
    }
    if mine != null && Pending(Calls(buffer, history), mine) {
      CallGoesOn(buffer.maxCapacity, history, now, mine);
    }
  }

  lemma VolumeSplits(actions: seq<Action>)
    requires actions != []
    ensures Volume(actions) == Volume([actions[0]]) + Volume(actions[1..])
  {
    assert [actions[0]][1..] == [];
  }

  /** What is the case after others, or this poll itself, have used the buffer for a while. */
  twostate predicate Onward(buffer: OutputBuffer, new history: seq<Event>, new now: seq<Event>)
    reads buffer, buffer.readers
  {
    && history <= now && Later(old(buffer.View()), buffer.View())
    && Confined(buffer, Calls(buffer, history), Calls(buffer, now))
  }

  /** What a longer history means for the stream. */
  lemma MirrorsLater(buffer: OutputBuffer, history: seq<Event>, now: seq<Event>)
    requires history <= now && Mirrors(buffer, now)
    ensures Later(Calls(buffer, history).s, buffer.View())
  {
    NowIsLater(buffer.maxCapacity, history, now);
  }

  method PerformAll(buffer: OutputBuffer, history: seq<Event>, actions: seq<Action>, mine: ReadRequest?, ghost coming: nat)
    returns (now: seq<Event>)
    requires Ready(buffer, history, Volume(actions) + coming)
    modifies Reach(buffer, Calls(buffer, history))
    ensures Ready(buffer, now, coming) && history <= now && Confined(buffer, Calls(buffer, history), Calls(buffer, now))
    ensures (buffer.stream, buffer.closed) == Effect(actions, old(buffer.stream), old(buffer.closed))
    ensures mine != null && Pending(Calls(buffer, history), mine) ==> Pending(Calls(buffer, now), mine)
    decreases |actions|
  {
    hide Mirrors, Calls, Pending, OutputBuffer.Valid;
    now := history;
    if actions != [] {
      VolumeSplits(actions);
      now := Act(buffer, history, actions[0], mine);
      now := PerformAll(buffer, now, actions[1..], mine, coming);
    }
  }

  /** Any number of actions of other threads, one after the other. */
  method Perform(buffer: OutputBuffer, history: seq<Event>, actions: seq<Action>, mine: ReadRequest?, ghost coming: nat)
    returns (now: seq<Event>)
    requires Ready(buffer, history, Volume(actions) + coming)
    modifies Reach(buffer, Calls(buffer, history))
    ensures Ready(buffer, now, coming) && Onward(buffer, history, now)
    ensures (buffer.stream, buffer.closed) == Effect(actions, old(buffer.stream), old(buffer.closed))
    ensures mine != null && Pending(Calls(buffer, history), mine) ==> Pending(Calls(buffer, now), mine)
  {
    hide Calls, Pending, Volume, Effect, Confined, Later, AllDelivered, Sound, Lawful, OutputBuffer.Valid, Reach;
    now := PerformAll(buffer, history, actions, mine, coming);
    MirrorsLater(buffer, history, now);
  }

  /** How one poll unfolds: what happens while its first read waits, whether that wait times out
      (possibly after the reader has been served), what happens before each further read, and whether
      the connection is good at each check. */
  datatype Plan = Plan(wait: seq<Action>, timedOut: bool, rounds: seq<seq<Action>>, good: nat -> bool) {
    function Total(): nat {
      Volume(wait) + Volumes(rounds)
    }
  }

  /** A data answer that is a piece of the stream at or after `begin`; whatever lies in between
      is no longer kept. */
  ghost predicate Piece(s: State, begin: nat, r: ReadResult) {
    && begin <= r.begin && 0 < r.count && r.begin + r.count <= |s.stream|
    && (r.begin > begin ==> r.begin <= Oldest(s.cap, |s.stream|))
  }

  /** What a blocking read at `begin` may return: a piece of the stream, shown in the target; the
      end, if nothing is missed; or a timeout. */
  ghost predicate Reply(s: State, begin: nat, r: ReadResult, target: seq<byte>) {
    if r.isClosed then !r.isTimeout && s.closed && begin >= |s.stream|
    else r.isTimeout || (Piece(s, begin, r) && Shows(target, s.stream, r))
  }

  /** A reader at `begin` can only wait. */
  predicate NothingFor(s: State, begin: nat) {
    begin >= |s.stream| && !s.closed
  }

  /** The bytes at `position` cannot be fetched: they are not there yet, or no longer. */
  predicate Unavailable(s: State, position: nat) {
    position == |s.stream| || position < Oldest(s.cap, |s.stream|)
  }

  /** What a reader that has been answered finds: a piece of the stream at its position, or the end. */
  lemma AnswerIsRight(w: World, r: ReadRequest)
    requires Sound(w) && r in w.fate && r !in w.returned && r.count > 0
    ensures var told := Told(r, w.fate[r]);
      && r !in w.s.queue.live && !told.isTimeout && (told.isClosed <==> w.fate[r].ShutOut?)
      && (told.isClosed ==> w.s.closed && r.begin >= |w.s.stream|)
      && (!told.isClosed ==>
            && told.begin == r.begin && Piece(w.s, r.begin, told) && w.fate[r].Served?
            && w.fate[r].bytes == w.s.stream[told.begin..told.begin + told.count])
  {
    LeftWithAnswer(w, r);
  }

  /** A call that has returned: its reader is not in the queue any more. */
  ghost predicate Over(buffer: OutputBuffer, history: seq<Event>, r: ReadRequest)
    reads buffer, buffer.readers
  {
    r in Calls(buffer, history).returned && r !in buffer.readers.live
  }

  /** A blocked reader is woken by its timeout. */
  method WakeLate(buffer: OutputBuffer, history: seq<Event>, request: ReadRequest, ghost coming: nat)
    returns (r: ReadResult, now: seq<Event>)
    requires Ready(buffer, history, coming) && Pending(Calls(buffer, history), request)
    modifies Reach(buffer, Calls(buffer, history))
    ensures Ready(buffer, now, coming) && Onward(buffer, history, now) && now == history + [TimeOut(request)]
    ensures r == TIMEOUT && buffer.stream == old(buffer.stream) && buffer.closed == old(buffer.closed)
    ensures Over(buffer, now, request)
  {
    hide Now, Lawful, AllDelivered, Sound, Confined, OutputBuffer.Valid;
    r := Traffic.TimeOut(buffer, Calls(buffer, history), request);
    GoesOn(buffer.maxCapacity, history, TimeOut(request));
    now := history + [TimeOut(request)];
  }

  /** A blocked reader is woken because it has been answered, or turned away. */
  method WakeInTime(buffer: OutputBuffer, history: seq<Event>, request: ReadRequest, ghost coming: nat)
    returns (r: ReadResult, now: seq<Event>)
    requires Ready(buffer, history, coming) && Pending(Calls(buffer, history), request)
    requires request in Calls(buffer, history).fate && request.count > 0
    modifies Reach(buffer, Calls(buffer, history))
    ensures Ready(buffer, now, coming) && Onward(buffer, history, now) && now == history + [Return(request)]
    ensures buffer.View() == old(buffer.View()) && !r.isTimeout
    ensures (r.begin == request.begin || r.isClosed) && Reply(buffer.View(), request.begin, r, request.target[..])
    ensures Over(buffer, now, request)
  {
    hide Now, Lawful, AllDelivered, Sound, Confined, OutputBuffer.Valid;
    ghost var w := Calls(buffer, history);
    AnswerIsRight(w, request);
    r := Traffic.Return(buffer, w, request);
    GoesOn(buffer.maxCapacity, history, Return(request));
    now := history + [Return(request)];
  }

  /** A call under way has an answer if it has been signalled, and otherwise there is none. */
  lemma SignalledIffAnswered(buffer: OutputBuffer, history: seq<Event>, r: ReadRequest)
    requires Mirrors(buffer, history) && Pending(Calls(buffer, history), r)
    ensures r.signalled ==> r in Calls(buffer, history).fate
    ensures r.signalled <==> !NothingFor(buffer.View(), r.begin)
  {
    if r in Calls(buffer, history).fate {
      LeftWithAnswer(Calls(buffer, history), r);
    }
  }

  /** A blocked reader wakes, signalled or by its timeout. */
  method Wake(buffer: OutputBuffer, history: seq<Event>, request: ReadRequest, timedOut: bool, ghost coming: nat)
    returns (r: ReadResult, now: seq<Event>)
    requires Ready(buffer, history, coming) && Pending(Calls(buffer, history), request) && request.count > 0
    modifies Reach(buffer, Calls(buffer, history))
    ensures Ready(buffer, now, coming) && Onward(buffer, history, now) && Over(buffer, now, request)
    ensures buffer.stream == old(buffer.stream) && buffer.closed == old(buffer.closed)
    ensures r.isTimeout <==> timedOut || NothingFor(buffer.View(), request.begin)
    ensures Reply(buffer.View(), request.begin, r, request.target[..]) && (r.isTimeout || r.isClosed || r.begin == request.begin)
  {
    hide Calls, Mirrors, Pending, OutputBuffer.Valid, Piece, Onward;
    SignalledIffAnswered(buffer, history, request);
    if timedOut || !request.signalled {
      r, now := WakeLate(buffer, history, request, coming);
    } else {
      r, now := WakeInTime(buffer, history, request, coming);
    }
  }

  /** The wait of a blocked reader: others act, then it wakes. It returns a timeout exactly if its wait
      has timed out, or nothing has come that could be returned. */
  method Await(buffer: OutputBuffer, history: seq<Event>, request: ReadRequest, plan: Plan, ghost rest: nat)
    returns (r: ReadResult, now: seq<Event>)
    requires Ready(buffer, history, plan.Total() + rest) && Pending(Calls(buffer, history), request) && request.count > 0
    modifies Reach(buffer, Calls(buffer, history))
    ensures Ready(buffer, now, Volumes(plan.rounds) + rest) && Onward(buffer, history, now)
    ensures Over(buffer, now, request)
    ensures (buffer.stream, buffer.closed) == Effect(plan.wait, old(buffer.stream), old(buffer.closed))
    ensures r.isTimeout <==> plan.timedOut || NothingFor(buffer.View(), request.begin)
    ensures Reply(buffer.View(), request.begin, r, request.target[..]) && (r.isTimeout || r.isClosed || r.begin == request.begin)
  {
    hide Calls, Mirrors, Pending, OutputBuffer.Valid, Reply, NothingFor, Later, Effect, Volume, Volumes;
    now := Perform(buffer, history, plan.wait, request, Volumes(plan.rounds) + rest);
    ghost var between := buffer.View();
    r, now := Wake(buffer, now, request, plan.timedOut, Volumes(plan.rounds) + rest);
    LaterStill(old(buffer.View()), between, buffer.View());
  }

  /** An answer that is there at once is a piece of the stream, or the end. */
  lemma AnswerIsReply(s: State, begin: nat, count: nat, r: ReadResult, target: seq<byte>)
    requires s.cap >= 1 && count > 0 && r == s.Read(begin, count) && Shows(target, s.stream, r)
    ensures (r.isTimeout <==> NothingFor(s, begin)) && Reply(s, begin, r, target)
  {
    AnswerMeaning(s.cap, s.stream, s.closed, begin, count);
  }

  /** The first half of a blocking read. */
  method StartRead(buffer: OutputBuffer, history: seq<Event>, begin: int, target: array<byte>, ghost coming: nat)
    returns (r: ReadResult, request: ReadRequest?, now: seq<Event>)
    requires Ready(buffer, history, coming) && -TWO_63 <= begin < TWO_63
    requires target.Length > 0 && Private(target, buffer, Calls(buffer, history))
    modifies buffer.readers, target
    ensures Ready(buffer, now, coming) && buffer.stream == old(buffer.stream) && buffer.closed == old(buffer.closed)
    ensures var from := TranslateBegin(begin, |buffer.stream|);
      && r == old(buffer.View()).Read(from, target.Length) && Shows(target[..], buffer.stream, r)
      && Reply(old(buffer.View()), from, r, target[..]) && (request != null <==> r.isTimeout)
      && (r.isTimeout <==> NothingFor(old(buffer.View()), from))
    ensures history <= now && ConfinedBut(buffer, Calls(buffer, history), Calls(buffer, now), {target})
    ensures request == null ==> now == history && buffer.View() == old(buffer.View())
    ensures request != null ==>
      && fresh(request) && now == history + [Block(request)] && Pending(Calls(buffer, now), request)
      && request.begin == TranslateBegin(begin, |buffer.stream|) && request.target == target && request.count == target.Length
      && Calls(buffer, now) == AfterBlock(Calls(buffer, history), request)
  {
    hide Now, Lawful, AllDelivered, Sound, OutputBuffer.Valid, TranslateBegin, Answer, ConfinedBut;
    ghost var w := Calls(buffer, history);
    LiveArePending(w);
    r, request := Traffic.BeginRead(buffer, w, begin, target, target.Length);
    AnswerIsReply(old(buffer.View()), TranslateBegin(begin, |buffer.stream|), target.Length, r, target[..]);
    now := history;
    if request != null {
      GoesOn(buffer.maxCapacity, history, Block(request));
      now := history + [Block(request)];
    }
  }

  /** An array that only one call has used is private again once that call is over. */
  lemma PrivateAgain(w: World, w': World, request: ReadRequest)
    requires forall r :: r in w.blocked && r !in w.returned ==> r.target != request.target
    requires forall r :: r in w.returned ==> r in w'.returned
    requires request in w'.returned
    requires forall r :: r in w'.blocked && r !in w'.returned ==> r in w.blocked || r == request || r.target != request.target
    ensures forall r :: r in w'.blocked && r !in w'.returned ==> r.target != request.target
  {
  }

  /** The wait of a reader whose array nobody else uses. */
  method AwaitAlone(buffer: OutputBuffer, history: seq<Event>, request: ReadRequest, plan: Plan, ghost rest: nat, ghost w: World)
    returns (r: ReadResult, now: seq<Event>)
    requires Ready(buffer, history, plan.Total() + rest) && Pending(Calls(buffer, history), request) && request.count > 0
    requires Calls(buffer, history).blocked == w.blocked + {request} && Calls(buffer, history).returned == w.returned
    requires Private(request.target, buffer, w)
    modifies Reach(buffer, Calls(buffer, history))
    ensures Ready(buffer, now, Volumes(plan.rounds) + rest) && Onward(buffer, history, now)
    ensures Over(buffer, now, request) && Private(request.target, buffer, Calls(buffer, now))
    ensures (buffer.stream, buffer.closed) == Effect(plan.wait, old(buffer.stream), old(buffer.closed))
    ensures r.isTimeout <==> plan.timedOut || NothingFor(buffer.View(), request.begin)
    ensures Reply(buffer.View(), request.begin, r, request.target[..]) && (r.isTimeout || r.isClosed || r.begin == request.begin)
  {
    hide Calls, Mirrors, OutputBuffer.Valid, Reply, NothingFor, Later;
    r, now := Await(buffer, history, request, plan, rest);
    PrivateAgain(w, Calls(buffer, now), request);
  }

  lemma LaterItself(s: State)
    ensures Later(s, s)
  {
  }

  lemma LaterStill(before: State, between: State, after: State)
    requires Later(before, between) && Later(between, after)
    ensures Later(before, after)
  {
  }

  lemma LaterOn(before: State, between: State, after: State)
    requires Later(between, after)
    requires before.cap == between.cap && before.stream == between.stream && before.closed == between.closed
    ensures Later(before, after)
  {
  }

  /** Is a poll that starts in `s` to wait in vain, given what others do meanwhile? */
  predicate InVain(s: State, begin: nat, plan: Plan) {
    var (stream, closed) := Effect(plan.wait, s.stream, s.closed);
    NothingFor(s, begin) && (plan.timedOut || (begin >= |stream| && !closed))
  }

  /** Is it to be told that the output is over? */
  predicate IsOver(s: State, begin: nat, plan: Plan) {
    var (stream, closed) := Effect(plan.wait, s.stream, s.closed);
    begin >= |s.stream| && (s.closed || (!plan.timedOut && closed && begin >= |stream|))
  }

  /** The stream and its closed flag once the first read of a poll is over. */
  function AfterFirst(s: State, begin: nat, plan: Plan): (seq<byte>, bool) {
    if NothingFor(s, begin) then Effect(plan.wait, s.stream, s.closed) else (s.stream, s.closed)
  }

  /** What the first read returns, given where the poll started and what happened: a timeout exactly
      if it waits in vain, the end exactly if the output is over, and otherwise a piece that starts at
      its position or at the oldest byte kept when the poll started. */
  ghost predicate Outcome(s: State, begin: nat, plan: Plan, r: ReadResult) {
    && (r.isTimeout <==> InVain(s, begin, plan))
    && (r.isClosed <==> IsOver(s, begin, plan))
    && (!r.isTimeout && !r.isClosed ==> r.count > 0 && r.begin == Max(begin, Oldest(s.cap, |s.stream|)))
  }

  lemma AnswerIsOutcome(s: State, begin: nat, plan: Plan, count: nat, r: ReadResult)
    requires s.cap >= 1 && count > 0 && r == s.Read(begin, count) && !NothingFor(s, begin)
    ensures Outcome(s, begin, plan, r) && (!r.isClosed ==> r.count == Min(count, |s.stream| - r.begin))
  {
    AnswerMeaning(s.cap, s.stream, s.closed, begin, count);
  }

  lemma WaitIsOutcome(s: State, begin: nat, plan: Plan, after: State, r: ReadResult, target: seq<byte>)
    requires NothingFor(s, begin) && (after.stream, after.closed) == Effect(plan.wait, s.stream, s.closed)
    requires r.isTimeout <==> plan.timedOut || NothingFor(after, begin)
    requires Reply(after, begin, r, target) && (r.isTimeout || r.isClosed || r.begin == begin)
    ensures Outcome(s, begin, plan, r)
  {
  }

  /** The blocking read at the head of a poll, with all that may happen while it waits. */
  method FirstRead(buffer: OutputBuffer, history: seq<Event>, begin: int, target: array<byte>, plan: Plan, ghost rest: nat)
    returns (r: ReadResult, now: seq<Event>)
    requires Ready(buffer, history, plan.Total() + rest) && -TWO_63 <= begin < TWO_63
    requires target.Length > 0 && Private(target, buffer, Calls(buffer, history))
    modifies Reach(buffer, Calls(buffer, history)), target
    ensures Ready(buffer, now, Volumes(plan.rounds) + rest) && history <= now && Later(old(buffer.View()), buffer.View())
    ensures Private(target, buffer, Calls(buffer, now)) && ConfinedBut(buffer, Calls(buffer, history), Calls(buffer, now), {target})
    ensures var from := TranslateBegin(begin, |old(buffer.stream)|);
      && (buffer.stream, buffer.closed) == AfterFirst(old(buffer.View()), from, plan)
      && Outcome(old(buffer.View()), from, plan, r) && Reply(buffer.View(), from, r, target[..])
      && (!NothingFor(old(buffer.View()), from) && !r.isClosed ==> r.count == Min(target.Length, |buffer.stream| - r.begin))
  {
    hide Ready, Calls, TranslateBegin, Reply, NothingFor, Private, Pending, Later, Answer, Shows, Outcome;
    ReadyFits(buffer, history, plan.Total() + rest);
    var request;
    r, request, now := StartRead(buffer, history, begin, target, plan.Total() + rest);
    ghost var from := TranslateBegin(begin, |old(buffer.stream)|);
    if request != null {
      ghost var mid := buffer.View();
      r, now := AwaitAlone(buffer, now, request, plan, rest, Calls(buffer, history));
      LaterOn(old(buffer.View()), mid, buffer.View());
      WaitIsOutcome(old(buffer.View()), from, plan, buffer.View(), r, target[..]);
    } else {
      LaterItself(buffer.View());
      ReadyForLess(buffer, now, plan.Total() + rest, Volumes(plan.rounds) + rest);
      AnswerIsOutcome(old(buffer.View()), from, plan, target.Length, r);
    }
  }

  ghost predicate Slice(stream: seq<byte>, position: nat, body: seq<byte>) {
    position + |body| <= |stream| && body == stream[position..position + |body|]
  }

  /** The actions that come before the `k`-th further read; none once the plan is used up. */
  function Round(plan: Plan, k: nat): seq<Action> {
    if k < |plan.rounds| then plan.rounds[k] else []
  }

  /** The stream and its closed flag after the first `k` rounds. */
  function AfterRounds(plan: Plan, k: nat, stream: seq<byte>, closed: bool): (seq<byte>, bool) {
    if k == 0 then (stream, closed)
    else
      var (stream', closed') := AfterRounds(plan, k - 1, stream, closed);
      Effect(Round(plan, k - 1), stream', closed')
  }

  function Coming(plan: Plan, k: nat): nat {
    if k <= |plan.rounds| then Volumes(plan.rounds[k..]) else 0
  }

  lemma ComingSplits(plan: Plan, k: nat)
    ensures Coming(plan, k) == Volume(Round(plan, k)) + Coming(plan, k + 1)
    ensures k >= |plan.rounds| ==> Round(plan, k) == []
  {
    if k < |plan.rounds| {
      assert plan.rounds[k..][1..] == plan.rounds[k + 1..];
    }
  }

  /** A slice of a stream is a slice of every later one, and what continues it makes it longer. */
  lemma SliceGrows(before: seq<byte>, after: seq<byte>, position: nat, body: seq<byte>, next: seq<byte>)
    requires before <= after && Slice(before, position, body)
    ensures Slice(after, position, body) && position + |body| <= |after|
    ensures Slice(after, position + |body|, next) ==> Slice(after, position, body + next)
  {
  }

  lemma SliceFits(stream: seq<byte>, position: nat, body: seq<byte>)
    requires Slice(stream, position, body)
    ensures position + |body| <= |stream|
  {
  }

  lemma ShownIsSlice(target: seq<byte>, stream: seq<byte>, r: ReadResult)
    requires Shows(target, stream, r)
    ensures Slice(stream, r.begin, target[..r.count])
  {
  }

  /** What the answer to a further read tells: more of the stream, or that none can be had now. */
  lemma AnswerTells(s: State, begin: nat, count: nat, r: ReadResult)
    requires r == s.Read(begin, count) && begin <= |s.stream| && count > 0
    ensures if !r.isTimeout && !r.isClosed && begin == r.begin then 0 < r.count <= count
      else Unavailable(s, begin)
  {
  }

  /** One further read: the bytes that follow those in `body`, if they can be fetched at once. */
  method FetchNext(buffer: OutputBuffer, history: seq<Event>, target: array<byte>, position: nat, body: seq<byte>, count: nat, ghost coming: nat)
    returns (more: bool, sent: seq<byte>)
    requires Ready(buffer, history, coming) && Slice(buffer.stream, position, body)
    requires 0 < count <= target.Length && Private(target, buffer, Calls(buffer, history))
    modifies target
    ensures Ready(buffer, history, coming) && Slice(buffer.stream, position, sent) && body <= sent
    ensures if more then |body| < |sent| <= |body| + count
      else sent == body && Unavailable(buffer.View(), position + |body|)
  {
    hide Slice, TranslateBegin, Unavailable, Answer, Calls, Lawful, AllDelivered, Sound, OutputBuffer.Valid;
    SliceFits(buffer.stream, position, body);
    var begin := position + |body|;
    var result := Traffic.TryRead(buffer, Calls(buffer, history), begin, target, count);
    AnswerTells(buffer.View(), begin, count, result);
    more := !result.isTimeout && !result.isClosed && begin == result.begin;
    sent := body;
    if more {
      ShownIsSlice(target[..], buffer.stream, result);
      assert target[..][..result.count] == target[..result.count];
      SliceGrows(buffer.stream, buffer.stream, position, body, target[..result.count]);
      sent := body + target[..result.count];
    }
  }

  /** One round of either loop below: others have their turn, then comes one more read. If it
      fetches something, that is sent too; if not, `more` is false. */
  method SendNext(buffer: OutputBuffer, history: seq<Event>, target: array<byte>, position: nat, body: seq<byte>, count: nat, plan: Plan, k: nat, ghost rest: nat)
    returns (more: bool, sent: seq<byte>, now: seq<Event>)
    requires Ready(buffer, history, Coming(plan, k) + rest) && Slice(buffer.stream, position, body)
    requires 0 < count <= target.Length && Private(target, buffer, Calls(buffer, history))
    modifies Reach(buffer, Calls(buffer, history)), target
    ensures Ready(buffer, now, Coming(plan, k + 1) + rest) && Onward(buffer, history, now) && Private(target, buffer, Calls(buffer, now))
    ensures (buffer.stream, buffer.closed) == Effect(Round(plan, k), old(buffer.stream), old(buffer.closed))
    ensures k >= |plan.rounds| ==> |buffer.stream| == |old(buffer.stream)|
    ensures Slice(buffer.stream, position, sent) && body <= sent
    ensures if more then |body| < |sent| <= |body| + count
      else sent == body && Unavailable(buffer.View(), position + |body|)
  {
    hide Slice, Coming, Round, Unavailable, Calls, Mirrors, OutputBuffer.Valid;
    ComingSplits(plan, k);
    now := Perform(buffer, history, Round(plan, k), null, Coming(plan, k + 1) + rest);
    SliceGrows(old(buffer.stream), buffer.stream, position, body, []);
    more, sent := FetchNext(buffer, now, target, position, body, count, Coming(plan, k + 1) + rest);
  }

  /** Why the follow-up reads may stop, after `used` of them: all that was asked for has been sent, the
      connection is not good any more, or nothing can be fetched at once at the place to go on. Every
      read but the last has brought something. */
  ghost predicate StopsRightly(plan: Plan, used: nat, first: nat, sent: nat, readCount: nat, position: nat, s: State) {
    && (forall k :: 0 <= k < used ==> plan.good(k)) && first + used <= sent + 1
    && ((readCount > 0 && sent == readCount) || !plan.good(used) || (used > 0 && Unavailable(s, position + sent)))
  }

  /** How far a poll has got after `k` further reads, all of which have brought something: `body` is a
      slice of the stream that goes on from `first`, and others have done just their `k` rounds. */
  ghost predicate Sent(plan: Plan, k: nat, stream: seq<byte>, closed: bool, now: seq<byte>, nowClosed: bool, position: nat, first: seq<byte>, body: seq<byte>) {
    && (now, nowClosed) == AfterRounds(plan, k, stream, closed) && Slice(now, position, body)
    && first <= body && |first| + k <= |body| && forall j :: 0 <= j < k ==> plan.good(j)
  }

  /** The same after the last of them, which may have brought nothing. */
  ghost predicate Done(plan: Plan, used: nat, stream: seq<byte>, closed: bool, s: State, position: nat, first: seq<byte>, body: seq<byte>, readCount: nat) {
    && (s.stream, s.closed) == AfterRounds(plan, used, stream, closed) && Slice(s.stream, position, body) && first <= body
    && StopsRightly(plan, used, |first|, |body|, readCount, position, s)
  }

  lemma NothingSent(plan: Plan, stream: seq<byte>, closed: bool, position: nat, first: seq<byte>)
    requires Slice(stream, position, first)
    ensures Sent(plan, 0, stream, closed, stream, closed, position, first, first)
  {
  }

  /** One more read, which brings something, or ends it. */
  lemma SentOn(plan: Plan, k: nat, stream: seq<byte>, closed: bool, now: seq<byte>, nowClosed: bool, position: nat, first: seq<byte>, body: seq<byte>, more: bool, sent: seq<byte>, s: State, readCount: nat)
    requires Sent(plan, k, stream, closed, now, nowClosed, position, first, body) && plan.good(k)
    requires (s.stream, s.closed) == Effect(Round(plan, k), now, nowClosed) && Slice(s.stream, position, sent) && body <= sent
    requires if more then |body| < |sent| else sent == body && Unavailable(s, position + |body|)
    ensures if more then Sent(plan, k + 1, stream, closed, s.stream, s.closed, position, first, sent)
      else Done(plan, k + 1, stream, closed, s, position, first, sent, readCount)
  {
    hide Slice, Effect, Unavailable, Round;
  }

  /** Stopping before a read. */
  lemma SentAll(plan: Plan, k: nat, stream: seq<byte>, closed: bool, s: State, position: nat, first: seq<byte>, body: seq<byte>, readCount: nat)
    requires Sent(plan, k, stream, closed, s.stream, s.closed, position, first, body)
    requires (readCount > 0 && |body| == readCount) || !plan.good(k)
    ensures Done(plan, k, stream, closed, s, position, first, body, readCount)
  {
    hide Slice, AfterRounds;
  }

  lemma SentFits(plan: Plan, k: nat, stream: seq<byte>, closed: bool, now: seq<byte>, nowClosed: bool, position: nat, first: seq<byte>, body: seq<byte>)
    requires Sent(plan, k, stream, closed, now, nowClosed, position, first, body)
    ensures Slice(now, position, body) && |first| <= |body| && position + |body| <= |now|
  {
  }

  /** The follow-up reads of a poll with a count: sends on until `readCount` bytes have been sent,
      nothing can be fetched at once, or the bytes that should follow are no longer kept. */
  method SendCounted(buffer: OutputBuffer, history: seq<Event>, target: array<byte>, position: nat, first: seq<byte>, readCount: nat, plan: Plan, ghost rest: nat)
    returns (body: seq<byte>, now: seq<Event>, ghost used: nat)
    requires Ready(buffer, history, Coming(plan, 0) + rest) && target.Length > 0 && Private(target, buffer, Calls(buffer, history))
    requires Slice(buffer.stream, position, first) && 0 < |first| <= readCount
    modifies Reach(buffer, Calls(buffer, history)), target
    ensures Ready(buffer, now, rest) && Onward(buffer, history, now) && |body| <= readCount
    ensures Done(plan, used, old(buffer.stream), old(buffer.closed), buffer.View(), position, first, body, readCount)
  {
    hide Slice, Ready, Coming, Calls, Private, OutputBuffer.Valid, Unavailable, Later, Round, Effect, Sent, Done;
    LaterItself(buffer.View());
    NothingSent(plan, buffer.stream, buffer.closed, position, first);
    body, now, used := first, history, 0;
    var k := 0;
    while |body| < readCount && plan.good(k)
      invariant Ready(buffer, now, Coming(plan, k) + rest) && Onward(buffer, history, now)
      invariant Private(target, buffer, Calls(buffer, now)) && |body| <= readCount
      invariant Sent(plan, k, old(buffer.stream), old(buffer.closed), buffer.stream, buffer.closed, position, first, body)
      decreases readCount - |body|
    {
      ghost var before, had := buffer.View(), body;
      SentFits(plan, k, old(buffer.stream), old(buffer.closed), before.stream, before.closed, position, first, body);
      var newReadCount := Min(readCount - |body|, target.Length);
      var more;
      more, body, now := SendNext(buffer, now, target, position, body, newReadCount, plan, k, rest);
      LaterStill(old(buffer.View()), before, buffer.View());
      SentOn(plan, k, old(buffer.stream), old(buffer.closed), before.stream, before.closed, position, first, had, more, body, buffer.View(), readCount);
      k := k + 1;
      if !more {
        ReadyForLess(buffer, now, Coming(plan, k) + rest, rest);
        return body, now, k;
      }
    }
    used := k;
    SentAll(plan, k, old(buffer.stream), old(buffer.closed), buffer.View(), position, first, body, readCount);
    ReadyForLess(buffer, now, Coming(plan, k) + rest, rest);
  }

  /** The follow-up reads of a poll without a count: as above, without a limit. It ends, because
      once the others have stopped every read brings it nearer to the end of the stream. */
  method SendAvailable(buffer: OutputBuffer, history: seq<Event>, target: array<byte>, position: nat, first: seq<byte>, plan: Plan, ghost rest: nat)
    returns (body: seq<byte>, now: seq<Event>, ghost used: nat)
    requires Ready(buffer, history, Coming(plan, 0) + rest) && target.Length > 0 && Private(target, buffer, Calls(buffer, history))
    requires Slice(buffer.stream, position, first)
    modifies Reach(buffer, Calls(buffer, history)), target
    ensures Ready(buffer, now, rest) && Onward(buffer, history, now)
    ensures Done(plan, used, old(buffer.stream), old(buffer.closed), buffer.View(), position, first, body, 0)
  {
    hide Slice, Ready, Coming, Calls, Private, OutputBuffer.Valid, Unavailable, Later, Round, Effect, Sent, Done;
    LaterItself(buffer.View());
    NothingSent(plan, buffer.stream, buffer.closed, position, first);
    body, now, used := first, history, 0;
    var k := 0;
    while plan.good(k)
      invariant Ready(buffer, now, Coming(plan, k) + rest) && Onward(buffer, history, now)
      invariant Private(target, buffer, Calls(buffer, now))
      invariant Sent(plan, k, old(buffer.stream), old(buffer.closed), buffer.stream, buffer.closed, position, first, body)
      decreases Max(0, |plan.rounds| - k), |buffer.stream| - |body|
    {
      ghost var before, had := buffer.View(), body;
      SentFits(plan, k, old(buffer.stream), old(buffer.closed), before.stream, before.closed, position, first, body);
      var more;
      more, body, now := SendNext(buffer, now, target, position, body, target.Length, plan, k, rest);
      LaterStill(old(buffer.View()), before, buffer.View());
      SliceFits(buffer.stream, position, body);
      SentOn(plan, k, old(buffer.stream), old(buffer.closed), before.stream, before.closed, position, first, had, more, body, buffer.View(), 0);
      k := k + 1;
      if !more {
        ReadyForLess(buffer, now, Coming(plan, k) + rest, rest);
        return body, now, k;
      }
    }
    used := k;
    SentAll(plan, k, old(buffer.stream), old(buffer.closed), buffer.View(), position, first, body, 0);
    ReadyForLess(buffer, now, Coming(plan, k) + rest, rest);
  }

  /** What the server sends back: 410, 204, or 200 with the framed output. */
  datatype Response = Gone | NoContent | Ok(position: nat, body: seq<byte>)

  /** The promise of one response to a client that has everything before `begin`. */
  ghost predicate Honest(response: Response, begin: nat, after: State) {
    match response
    case Gone => after.closed && begin >= |after.stream|
    case NoContent => true
    case Ok(position, body) =>
      && begin <= position && body != [] && Slice(after.stream, position, body)
      && (position > begin ==> position <= Oldest(after.cap, |after.stream|))
  }

  /** The array a poll reads into. */
  method NewTarget(buffer: OutputBuffer, history: seq<Event>, size: nat, ghost coming: nat) returns (target: array<byte>)
    requires Ready(buffer, history, coming)
    ensures fresh(target) && target.Length == size && Ready(buffer, history, coming) && Private(target, buffer, Calls(buffer, history))
  {
    hide Calls, Lawful, Private, OutputBuffer.Valid, AllDelivered, Sound;
    target := NewArray(buffer, Calls(buffer, history), size);
  }

  /** The response to a first read that has brought something. */
  method SendFrom(buffer: OutputBuffer, history: seq<Event>, target: array<byte>, first: ReadResult, readCount: nat, plan: Plan, ghost rest: nat)
    returns (body: seq<byte>, now: seq<Event>, ghost used: nat)
    requires Ready(buffer, history, Volumes(plan.rounds) + rest) && target.Length > 0 && Private(target, buffer, Calls(buffer, history))
    requires first.count > 0 && Shows(target[..], buffer.stream, first) && (readCount > 0 ==> target.Length <= readCount)
    modifies Reach(buffer, Calls(buffer, history)), target
    ensures Ready(buffer, now, rest) && Onward(buffer, history, now)
    ensures (buffer.stream, buffer.closed) == AfterRounds(plan, used, old(buffer.stream), old(buffer.closed))
    ensures |body| >= first.count && Slice(buffer.stream, first.begin, body) && (readCount > 0 ==> |body| <= readCount)
    ensures StopsRightly(plan, used, first.count, |body|, readCount, first.begin, buffer.View())
  {
    hide Slice, Ready, Calls, Private, OutputBuffer.Valid, Onward, AfterRounds, StopsRightly;
    body := target[..first.count];
    ShownIsSlice(target[..], buffer.stream, first);
    assert target[..][..first.count] == body && Coming(plan, 0) == Volumes(plan.rounds);
    if readCount > 0 {
      body, now, used := SendCounted(buffer, history, target, first.begin, body, readCount, plan, rest);
    } else {
      body, now, used := SendAvailable(buffer, history, target, first.begin, body, plan, rest);
    }
  }

  /** What a poll answers to a client at `from`, given the state it finds: no content exactly if it
      waits in vain, gone exactly if the output is over, and otherwise bytes from that position or the
      oldest kept on; at least those of the first read, `first` in number. */
  ghost predicate Answers(s: State, from: nat, plan: Plan, size: nat, response: Response, first: nat) {
    && (response.NoContent? <==> InVain(s, from, plan))
    && (response.Gone? <==> IsOver(s, from, plan))
    && (response.Ok? ==>
          && response.position == Max(from, Oldest(s.cap, |s.stream|)) && 0 < first <= |response.body|
          && (!NothingFor(s, from) ==> first == Min(size, |s.stream| - response.position)))
  }

  /** Where a poll leaves the stream and its closed flag: others did what is planned for its first
      wait, if it had to wait, and for as many rounds as it made further reads, and nothing else. */
  ghost predicate Leaves(s: State, from: nat, plan: Plan, used: nat, after: State) {
    var (stream, closed) := AfterFirst(s, from, plan);
    (after.stream, after.closed) == AfterRounds(plan, used, stream, closed)
  }

  /** The response, given what the first read has brought. */
  method Respond(buffer: OutputBuffer, history: seq<Event>, target: array<byte>, first: ReadResult, readCount: nat, plan: Plan, ghost rest: nat, ghost from: nat)
    returns (response: Response, now: seq<Event>, ghost used: nat)
    requires Ready(buffer, history, Volumes(plan.rounds) + rest) && target.Length > 0 && Private(target, buffer, Calls(buffer, history))
    requires Reply(buffer.View(), from, first, target[..]) && (readCount > 0 ==> target.Length <= readCount)
    modifies Reach(buffer, Calls(buffer, history)), target
    ensures Ready(buffer, now, rest) && Onward(buffer, history, now) && Honest(response, from, buffer.View())
    ensures (buffer.stream, buffer.closed) == AfterRounds(plan, used, old(buffer.stream), old(buffer.closed))
    ensures (response.Gone? <==> first.isClosed) && (response.NoContent? <==> first.isTimeout)
    ensures response.NoContent? ==> buffer.View() == old(buffer.View())
    ensures response.Ok? ==> response.position == first.begin && |response.body| >= first.count
    ensures if response.Ok? then StopsRightly(plan, used, first.count, |response.body|, readCount, response.position, buffer.View()) else used == 0
    ensures response.Ok? && readCount > 0 ==> |response.body| <= readCount
  {
    hide Slice, Ready, Calls, Private, OutputBuffer.Valid, StopsRightly;
    if first.isClosed || first.isTimeout {
      response := if first.isClosed then Gone else NoContent;
      now, used := history, 0;
      ReadyForLess(buffer, now, Volumes(plan.rounds) + rest, rest);
    } else {
      var body;
      body, now, used := SendFrom(buffer, history, target, first, readCount, plan, rest);
      response := Ok(first.begin, body);
    }
  }

  lemma OutcomeIsAnswer(s: State, from: nat, plan: Plan, size: nat, r: ReadResult, response: Response)
    requires Outcome(s, from, plan, r)
    requires !NothingFor(s, from) && !r.isClosed ==> r.count == Min(size, |s.stream| - r.begin)
    requires (response.Gone? <==> r.isClosed) && (response.NoContent? <==> r.isTimeout)
    requires response.Ok? ==> response.position == r.begin && |response.body| >= r.count
    ensures Answers(s, from, plan, size, response, r.count)
  {
    hide InVain, IsOver;
  }

  lemma RoundsLeave(s: State, from: nat, plan: Plan, between: State, used: nat, after: State)
    requires (between.stream, between.closed) == AfterFirst(s, from, plan)
    requires (after.stream, after.closed) == AfterRounds(plan, used, between.stream, between.closed)
    ensures Leaves(s, from, plan, used, after)
  {
  }

  /** At once, there is no wait that could have changed the stream. */
  lemma NoWaitNoChange(s: State, from: nat, plan: Plan, stream: seq<byte>, closed: bool)
    requires (stream, closed) == AfterFirst(s, from, plan) && !NothingFor(s, from)
    ensures stream == s.stream && closed == s.closed
  {
  }

  /** The poll proper, once its parameters are known. */
  method ServePoll(buffer: OutputBuffer, history: seq<Event>, begin: int, target: array<byte>, readCount: nat, plan: Plan, ghost rest: nat)
    returns (response: Response, now: seq<Event>, ghost first: nat, ghost used: nat)
    requires Ready(buffer, history, plan.Total() + rest) && -TWO_63 <= begin < TWO_63
    requires target.Length > 0 && Private(target, buffer, Calls(buffer, history)) && (readCount > 0 ==> target.Length <= readCount)
    modifies Reach(buffer, Calls(buffer, history)), target
    ensures Ready(buffer, now, rest) && history <= now && Later(old(buffer.View()), buffer.View())
    ensures ConfinedBut(buffer, Calls(buffer, history), Calls(buffer, now), {target})
    ensures var from := TranslateBegin(begin, |old(buffer.stream)|);
      && Honest(response, from, buffer.View()) && Answers(old(buffer.View()), from, plan, target.Length, response, first)
      && Leaves(old(buffer.View()), from, plan, used, buffer.View())
    ensures if response.Ok? then StopsRightly(plan, used, first, |response.body|, readCount, response.position, buffer.View()) else used == 0
    ensures response.Ok? && readCount > 0 ==> |response.body| <= readCount
  {
    hide TranslateBegin, Reply, Honest, Later, Ready, Calls, Private, OutputBuffer.Valid, StopsRightly, AfterRounds, AfterFirst, NothingFor, Outcome, Answers, Leaves;
    assert |buffer.stream| < TWO_63 by { ReadyFits(buffer, history, plan.Total() + rest); }
    ghost var from := TranslateBegin(begin, |buffer.stream|);
    var result;
    result, now := FirstRead(buffer, history, begin, target, plan, rest);
    ghost var between := buffer.View();
    response, now, used := Respond(buffer, now, target, result, readCount, plan, rest, from);
    first := result.count;
    LaterStill(old(buffer.View()), between, buffer.View());
    if !NothingFor(old(buffer.View()), from) {
      NoWaitNoChange(old(buffer.View()), from, plan, between.stream, between.closed);
    }
    OutcomeIsAnswer(old(buffer.View()), from, plan, target.Length, result, response);
    RoundsLeave(old(buffer.View()), from, plan, between, used, buffer.View());
  }

  /** OutputPollHandler::handleRequest. The body sent is one contiguous slice of the stream from
      the announced position on, whatever happens between the reads. That position is the requested
      one, or that of the oldest byte kept as the poll starts; "gone" is said exactly when the stream
      is complete and the client has all of it, and "no content" exactly when nothing comes in time. */
  method HandleRequest(buffer: OutputBuffer, history: seq<Event>, begin: int, readCount: nat, requestBufferSize: nat, plan: Plan, ghost rest: nat)
    returns (response: Response, now: seq<Event>, ghost first: nat, ghost used: nat)
    requires Ready(buffer, history, plan.Total() + rest) && -TWO_63 <= begin < TWO_63 && requestBufferSize >= 1
    modifies Reach(buffer, Calls(buffer, history))
    ensures Ready(buffer, now, rest) && Onward(buffer, history, now)
    ensures var from, size := TranslateBegin(begin, |old(buffer.stream)|), if readCount > 0 then Min(requestBufferSize, readCount) else requestBufferSize;
      && Honest(response, from, buffer.View()) && Answers(old(buffer.View()), from, plan, size, response, first)
      && Leaves(old(buffer.View()), from, plan, used, buffer.View())
    ensures if response.Ok? then StopsRightly(plan, used, first, |response.body|, readCount, response.position, buffer.View()) else used == 0
    ensures response.Ok? && readCount > 0 ==> |response.body| <= readCount
    ensures response.Ok? && (forall k: nat :: plan.good(k)) ==>
      (readCount > 0 && |response.body| == readCount) || Unavailable(buffer.View(), response.position + |response.body|)
  {
    hide TranslateBegin, Honest, Later, Ready, Calls, Private, OutputBuffer.Valid, Unavailable, Answers, Leaves;
    var bufferSize := if readCount > 0 then Min(requestBufferSize, readCount) else requestBufferSize;
    var target := NewTarget(buffer, history, bufferSize, plan.Total() + rest);
    assert buffer.View() == old(buffer.View());
    response, now, first, used := ServePoll(buffer, history, begin, target, readCount, plan, rest);
  }
}
