/** Runs of the output buffer: any interleaving of writes, reads that block, timeouts and close. */
module BufferRuns {
  import opened Bytes
  import opened StreamSpec
  import opened Readers
  import opened BufferSpec

  /** The critical sections that matter to a reader. `Block` is the first half of a read that finds
      nothing; the second half is `TimeOut` if its wait has timed out, and `Return` otherwise. */
  datatype Event = Write(data: seq<byte>) | Block(r: ReadRequest) | TimeOut(r: ReadRequest) | Return(r: ReadRequest) | Close

  /** How a reader has left the queue. A served one got `bytes` from the write that took the total
      from `before` to `after`. */
  datatype Fate = Expired | ShutOut | Served(before: nat, after: nat, bytes: seq<byte>)

  /** What a reader that has left in that way is to return, unless its wait times out before it
      gets to it. */
  function Told(r: ReadRequest, f: Fate): ReadResult {
    match f
    case Expired => TIMEOUT
    case ShutOut => CLOSED
    case Served(_, _, bytes) => DataAt(r.begin, |bytes|)
  }

  /** A buffer with its history: the reads that ever blocked, how they left the queue, and what those
      that are over have returned. `late` counts the timeouts of readers that had already left the
      queue, since the counters were last reset; `skew` is what `late` was at the last rebuild. */
  datatype World = World(s: State, blocked: set<ReadRequest>, fate: map<ReadRequest, Fate>,
                         returned: map<ReadRequest, ReadResult>, late: nat, skew: nat, peak: nat)

  function Start(cap: nat): World {
    World(Fresh(cap), {}, map[], map[], 0, 0, 0)
  }

  /** What may happen next: a read blocks only if it finds nothing, and a request waits only once. A
      call that has not returned may time out, whether or not its reader has left the queue; and it
      may return without that once its reader has left. */
  predicate Possible(w: World, e: Event) {
    match e
    case Write(_) => true
    case Block(r) => r !in w.blocked && w.s.Read(r.begin, r.count).isTimeout
    case TimeOut(r) => r in w.blocked && r !in w.returned
    case Return(r) => r in w.fate && r !in w.returned
    case Close => true
  }

  function Portion(stream: seq<byte>, r: ReadRequest): seq<byte>
    requires r.begin <= |stream|
  {
    stream[r.begin..r.begin + Min(r.count, |stream| - r.begin)]
  }

  function AfterWrite(w: World, data: seq<byte>): World {
    if w.s.closed then w
    else
      var s := w.s.Write(data);
      w.(s := s, fate := w.fate + map r | r in w.s.queue.Served(|s.stream|) :: Served(|w.s.stream|, |s.stream|, Portion(s.stream, r)))
  }

  function AfterBlock(w: World, r: ReadRequest): World {
    var s := w.s.Block(r);
    w.(s := s, blocked := w.blocked + {r}, peak := Max(w.peak, |s.queue.live|))
  }

  function AfterTimeOut(w: World, r: ReadRequest, compaction: bool): World {
    var late := if r in w.s.queue.live then w.late else w.late + 1;
    w.(s := w.s.Cancel(r, compaction),
       returned := w.returned[r := TIMEOUT],
       fate := if r in w.s.queue.live then w.fate[r := Expired] else w.fate,
       late := late,
       skew := if compaction && w.s.queue.Compacts(Dec64(w.s.queue.activeCount)) then late else w.skew)
  }

  function AfterReturn(w: World, r: ReadRequest): World {
    if r in w.fate then w.(returned := w.returned[r := Told(r, w.fate[r])]) else w
  }

  function AfterClose(w: World): World {
    if w.s.closed then w
    else w.(s := w.s.Close(), fate := w.fate + map r | r in w.s.queue.live :: ShutOut, late := 0, skew := 0)
  }

  function Step(w: World, e: Event, compaction: bool): World {
    match e
    case Write(data) => AfterWrite(w, data)
    case Block(r) => AfterBlock(w, r)
    case TimeOut(r) => AfterTimeOut(w, r, compaction)
    case Return(r) => AfterReturn(w, r)
    case Close => AfterClose(w)
  }

  predicate Legal(w: World, events: seq<Event>, compaction: bool)
    decreases |events|
  {
    events != [] ==> Possible(w, events[0]) && Legal(Step(w, events[0], compaction), events[1..], compaction)
  }

  function Run(w: World, events: seq<Event>, compaction: bool): World
    decreases |events|
  {
    if events == [] then w else Run(Step(w, events[0], compaction), events[1..], compaction)
  }

  // ---------- Who waits, and who has been told what ----------

  ghost predicate FateIsRight(s: State, returned: map<ReadRequest, ReadResult>, r: ReadRequest, f: Fate) {
    match f
    case Expired => r in returned && returned[r] == TIMEOUT
    case ShutOut => s.closed && r.begin >= |s.stream|
    case Served(before, after, bytes) =>
      && before <= r.begin < after <= |s.stream|
      && bytes == s.stream[r.begin..r.begin + Min(r.count, after - r.begin)]
  }

  ghost predicate Sound(w: World) {
    && w.s.NoLostWakeUp()
    && w.s.queue.heap <= w.blocked
    && (forall r :: r in w.blocked ==> r in w.s.queue.live || r in w.fate)
    && (forall r :: r in w.fate ==> r in w.blocked && r !in w.s.queue.live && FateIsRight(w.s, w.returned, r, w.fate[r]))
    && ReturnsRight(w)
  }

  /** A call that is over has returned what its reader was told, or a timeout. */
  ghost predicate ReturnsRight(w: World) {
    forall r :: r in w.returned ==> r in w.fate && (w.returned[r] == TIMEOUT || w.returned[r] == Told(r, w.fate[r]))
  }

  lemma ReturnsStayRight(w: World, e: Event, compaction: bool)
    requires Sound(w) && Possible(w, e)
    ensures ReturnsRight(Step(w, e, compaction))
  {
  }

  lemma FateStaysRight(w: World, data: seq<byte>, r: ReadRequest)
    requires !w.s.closed && r in w.fate && FateIsRight(w.s, w.returned, r, w.fate[r])
    ensures FateIsRight(w.s.Write(data), w.returned, r, w.fate[r])
  {
  }

  lemma FatesStayRight(w: World, data: seq<byte>)
    requires Sound(w) && !w.s.closed
    ensures var w' := AfterWrite(w, data);
      forall r :: r in w'.fate ==> r in w'.blocked && r !in w'.s.queue.live && FateIsRight(w'.s, w'.returned, r, w'.fate[r])
  {
    hide Down64, ReturnsRight;
    var w' := AfterWrite(w, data);
    forall r | r in w'.fate
      ensures r in w'.blocked && r !in w'.s.queue.live && FateIsRight(w'.s, w'.returned, r, w'.fate[r])
    {
      if r in w.fate {
        FateStaysRight(w, data, r);
      }
    }
  }

  lemma WriteIsSound(w: World, data: seq<byte>)
    requires Sound(w)
    ensures Sound(AfterWrite(w, data))
  {
    hide Down64, ReturnsRight, FateIsRight;
    if !w.s.closed {
      ReturnsStayRight(w, Write(data), true);
      WriteKeepsPromise(w.s, data);
      FatesStayRight(w, data);
    }
  }

  lemma BlockIsSound(w: World, r: ReadRequest)
    requires Sound(w) && Possible(w, Block(r))
    ensures Sound(AfterBlock(w, r))
  {
  }

  lemma TimeOutIsSound(w: World, r: ReadRequest, compaction: bool)
    requires Sound(w) && Possible(w, TimeOut(r))
    ensures Sound(AfterTimeOut(w, r, compaction))
  {
    hide ReturnsRight;
    ReturnsStayRight(w, TimeOut(r), compaction);
  }

  lemma ReturnIsSound(w: World, r: ReadRequest)
    requires Sound(w) && Possible(w, Return(r))
    ensures Sound(AfterReturn(w, r))
  {
  }

  lemma CloseIsSound(w: World)
    requires Sound(w)
    ensures Sound(AfterClose(w))
  {
  }

  /** Every event keeps every reader either waiting or told one right thing. */
  lemma StepIsSound(w: World, e: Event, compaction: bool)
    requires Sound(w) && Possible(w, e)
    ensures Sound(Step(w, e, compaction))
  {
    match e
    case Write(data) => WriteIsSound(w, data);
    case Block(r) => BlockIsSound(w, r);
    case TimeOut(r) => TimeOutIsSound(w, r, compaction);
    case Return(r) => ReturnIsSound(w, r);
    case Close => CloseIsSound(w);
  }

  /** What one event tells a reader, no later event revises. */
  lemma StepKeepsFates(w: World, e: Event, compaction: bool)
    requires Sound(w) && Possible(w, e)
    ensures w.blocked <= Step(w, e, compaction).blocked
    ensures forall r :: r in w.fate ==> r in Step(w, e, compaction).fate && Step(w, e, compaction).fate[r] == w.fate[r]
  {
  }

  lemma {:induction false} SoundOverRuns(w: World, events: seq<Event>, compaction: bool)
    requires Sound(w) && Legal(w, events, compaction)
    ensures Sound(Run(w, events, compaction))
    ensures var w' := Run(w, events, compaction);
      && w.blocked <= w'.blocked
      && (forall r :: r in w.fate ==> r in w'.fate && w'.fate[r] == w.fate[r])
    decreases |events|
  {
    if events != [] {
      StepIsSound(w, events[0], compaction);
      StepKeepsFates(w, events[0], compaction);
      SoundOverRuns(Step(w, events[0], compaction), events[1..], compaction);
    }
  }

  /** Was the reader served by the event numbered `k`? That is a write; the reader waited right up to
      it, no total before it passed the reader's position, and the totals recorded are those before
      and after it. */
  ghost predicate ServedAt(w: World, events: seq<Event>, compaction: bool, r: ReadRequest, f: Fate, k: nat) {
    && k < |events| && events[k].Write? && f.Served?
    && r in Run(w, events[..k], compaction).s.queue.live
    && f.before == |Run(w, events[..k], compaction).s.stream| <= r.begin
    && f.after == |Run(w, events[..k + 1], compaction).s.stream| == f.before + |events[k].data|
    && forall j :: 0 <= j <= k ==> |Run(w, events[..j], compaction).s.stream| <= r.begin
  }

  lemma ServedAtOnce(w: World, e: Event, rest: seq<Event>, compaction: bool, r: ReadRequest)
    requires Sound(w) && r !in w.fate && r in Step(w, e, compaction).fate && Step(w, e, compaction).fate[r].Served?
    ensures ServedAt(w, [e] + rest, compaction, r, Step(w, e, compaction).fate[r], 0)
  {
    var events := [e] + rest;
    assert events[..0] == [] && events[..1] == [e];
    assert Run(w, [e], compaction) == Step(w, e, compaction) by {
      assert [e][1..] == [];
    }
  }

  lemma ServedAtLater(w: World, e: Event, rest: seq<Event>, compaction: bool, r: ReadRequest, f: Fate, k: nat)
    requires ServedAt(Step(w, e, compaction), rest, compaction, r, f, k) && |w.s.stream| <= r.begin
    ensures ServedAt(w, [e] + rest, compaction, r, f, k + 1)
  {
    hide Step;
    var events := [e] + rest;
    forall j | 0 <= j <= |rest|
      ensures Run(w, events[..j + 1], compaction) == Run(Step(w, e, compaction), rest[..j], compaction)
    {
      assert events[..j + 1][1..] == rest[..j];
    }
    forall j | 0 <= j <= k + 1
      ensures |Run(w, events[..j], compaction).s.stream| <= r.begin
    {
      if j == 0 {
        assert events[..0] == [];
      } else {
        assert |Run(Step(w, e, compaction), rest[..j - 1], compaction).s.stream| <= r.begin;
      }
    }
  }

  /** A reader that is served is served by one write of the run, the first to pass its position. */
  lemma {:induction false} ServedByAWrite(w: World, events: seq<Event>, compaction: bool, r: ReadRequest) returns (k: nat)
    requires Sound(w) && Legal(w, events, compaction) && r !in w.fate
    requires r in Run(w, events, compaction).fate && Run(w, events, compaction).fate[r].Served?
    ensures ServedAt(w, events, compaction, r, Run(w, events, compaction).fate[r], k)
    decreases |events|
  {
    hide Step, Sound, ServedAt;
    if events == [] {
      assert false;
    } else {
      var e, rest := events[0], events[1..];
      var w1 := Step(w, e, compaction);
      assert events == [e] + rest;
      StepIsSound(w, e, compaction);
      if r in w1.fate {
        SoundOverRuns(w1, rest, compaction);
        ServedAtOnce(w, e, rest, compaction, r);
        k := 0;
      } else {
        k := ServedByAWrite(w1, rest, compaction, r);
        StepStream(w, e, compaction);
        assert |w1.s.stream| <= r.begin by { ServedStartsBelow(w1, rest, compaction, r, Run(w1, rest, compaction).fate[r], k); }
        ServedAtLater(w, e, rest, compaction, r, Run(w1, rest, compaction).fate[r], k);
        k := k + 1;
      }
    }
  }

  lemma ServedStartsBelow(w: World, events: seq<Event>, compaction: bool, r: ReadRequest, f: Fate, k: nat)
    requires ServedAt(w, events, compaction, r, f, k)
    ensures |w.s.stream| <= r.begin
  {
    assert events[..0] == [] && Run(w, events[..0], compaction) == w;
  }

  /** Over every run, at every moment of it: each reader that has blocked either still waits, and
      then for bytes that are not there yet, in a buffer that is open; or it has left in exactly one
      way, which is right and which nothing later revises: served by the first write to pass its
      position, with exactly the bytes of the stream from there; turned away by `close` with nothing
      missed; or timed out. */
  lemma AnsweredExactlyOnce(cap: nat, events: seq<Event>, later: seq<Event>, compaction: bool, r: ReadRequest)
    requires Legal(Start(cap), events, compaction) && Legal(Run(Start(cap), events, compaction), later, compaction)
    requires r in Run(Start(cap), events, compaction).blocked
    ensures var w := Run(Start(cap), events, compaction); var w' := Run(w, later, compaction);
      && (r in w.s.queue.live <==> r !in w.fate)
      && (r in w.s.queue.live ==> r.begin >= |w.s.stream| && !w.s.closed)
      && (r in w.fate ==> FateIsRight(w.s, w.returned, r, w.fate[r]) && r in w'.fate && w'.fate[r] == w.fate[r])
      && (r in w.fate && w.fate[r].Served? ==> exists k: nat :: ServedAt(Start(cap), events, compaction, r, w.fate[r], k))
  {
    hide ServedAt;
    StartIsSound(cap);
    SoundOverRuns(Start(cap), events, compaction);
    SoundOverRuns(Run(Start(cap), events, compaction), later, compaction);
    var w := Run(Start(cap), events, compaction);
    if r in w.fate && w.fate[r].Served? {
      var k := ServedByAWrite(Start(cap), events, compaction, r);
    }
  }

  lemma StartIsSound(cap: nat)
    ensures Sound(Start(cap)) && CountersTrack(Start(cap))
  {
  }

  // ---------- A history that goes on ----------

  /** The state after a history, from the start. */
  function Now(cap: nat, history: seq<Event>): World {
    Run(Start(cap), history, true)
  }

  predicate Lawful(cap: nat, history: seq<Event>) {
    Legal(Start(cap), history, true)
  }

  /** What time does to a stream: it grows, and not beyond its close. */
  ghost predicate Later(before: State, after: State) {
    && before.cap == after.cap && before.stream <= after.stream
    && (before.closed ==> after.closed && after.stream == before.stream)
  }

  lemma {:induction false} RunOn(w: World, first: seq<Event>, later: seq<Event>)
    ensures Legal(w, first + later, true) <==> Legal(w, first, true) && Legal(Run(w, first, true), later, true)
    ensures Run(w, first + later, true) == Run(Run(w, first, true), later, true)
    decreases |first|
  {
    hide Step, Possible;
    if first == [] {
      assert first + later == later;
    } else {
      RunOn(Step(w, first[0], true), first[1..], later);
      assert (first + later)[1..] == first[1..] + later;
    }
  }

  lemma Begun(cap: nat)
    ensures Lawful(cap, []) && Now(cap, []) == Start(cap)
  {
  }

  lemma GoesOn(cap: nat, history: seq<Event>, e: Event)
    requires Lawful(cap, history) && Possible(Now(cap, history), e)
    ensures Lawful(cap, history + [e]) && Now(cap, history + [e]) == Step(Now(cap, history), e, true)
  {
    hide Step, Possible, Start;
    var w := Now(cap, history);
    var w' := Step(w, e, true);
    RunOn(Start(cap), history, [e]);
    assert [e][1..] == [] && Legal(w', [], true) && Run(w', [], true) == w';
  }

  lemma NowIsSound(cap: nat, history: seq<Event>)
    requires Lawful(cap, history)
    ensures Sound(Now(cap, history)) && Now(cap, history).s.cap == cap
  {
    hide Sound;
    StartIsSound(cap);
    SoundOverRuns(Start(cap), history, true);
    RunStream(Start(cap), history, true);
  }

  /** What a longer history has made of the stream. */
  lemma NowIsLater(cap: nat, before: seq<Event>, after: seq<Event>)
    requires before <= after
    ensures Later(Now(cap, before).s, Now(cap, after).s)
  {
    hide Start, Run;
    var rest := after[|before|..];
    assert after == before + rest;
    RunOn(Start(cap), before, rest);
    RunStream(Now(cap, before), rest, true);
  }

  // ---------- What each call returns ----------

  /** The events that end the call of `r`. */
  predicate Ending(e: Event, r: ReadRequest) {
    e == TimeOut(r) || e == Return(r)
  }

  function Endings(events: seq<Event>, r: ReadRequest): nat {
    if events == [] then 0 else (if Ending(events[0], r) then 1 else 0) + Endings(events[1..], r)
  }

  lemma {:induction false} NoEnding(events: seq<Event>, r: ReadRequest)
    ensures Endings(events, r) == 0 <==> TimeOut(r) !in events && Return(r) !in events
  {
    if events != [] {
      NoEnding(events[1..], r);
      assert events == [events[0]] + events[1..];
    }
  }

  lemma StepEnds(w: World, e: Event, compaction: bool, r: ReadRequest)
    requires Sound(w) && Possible(w, e)
    ensures var w' := Step(w, e, compaction);
      && (r in w.returned ==> !Ending(e, r) && r in w'.returned && w'.returned[r] == w.returned[r])
      && (r !in w.returned ==> (r in w'.returned <==> Ending(e, r)))
      && (Ending(e, r) ==> r in w'.fate && w'.returned[r] == if e == TimeOut(r) then TIMEOUT else Told(r, w'.fate[r]))
  {
    hide Told;
  }

  lemma {:induction false} EndsOnce(w: World, events: seq<Event>, compaction: bool, r: ReadRequest)
    requires Sound(w) && Legal(w, events, compaction)
    ensures var w' := Run(w, events, compaction);
      && (r in w.returned ==> Endings(events, r) == 0 && r in w'.returned && w'.returned[r] == w.returned[r])
      && (r !in w.returned ==> Endings(events, r) <= 1 && (r in w'.returned <==> Endings(events, r) == 1))
      && (Endings(events, r) == 1 ==> r in w'.fate && w'.returned[r] == if TimeOut(r) in events then TIMEOUT else Told(r, w'.fate[r]))
    decreases |events|
  {
    if events != [] {
      hide Step, Told, Possible, Sound;
      var e, rest := events[0], events[1..];
      var w1 := Step(w, e, compaction);
      StepIsSound(w, e, compaction);
      StepEnds(w, e, compaction, r);
      EndsOnce(w1, rest, compaction, r);
      SoundOverRuns(w1, rest, compaction);
      NoEnding(rest, r);
      assert TimeOut(r) in events <==> e == TimeOut(r) || TimeOut(r) in rest;
    }
  }

  /** Over every run the call of a blocked reader returns at most once: a timeout exactly if its wait
      has timed out, even if the reader had been served by then; and otherwise what the reader has
      been told, which is what the one way in which it left the queue says. */
  lemma ReturnsOnce(cap: nat, events: seq<Event>, compaction: bool, r: ReadRequest)
    requires Legal(Start(cap), events, compaction)
    ensures var w := Run(Start(cap), events, compaction);
      && Endings(events, r) <= 1
      && (r in w.returned <==> TimeOut(r) in events || Return(r) in events)
      && (r in w.returned ==>
            && r in w.blocked && r in w.fate && FateIsRight(w.s, w.returned, r, w.fate[r])
            && w.returned[r] == if TimeOut(r) in events then TIMEOUT else Told(r, w.fate[r]))
  {
    StartIsSound(cap);
    SoundOverRuns(Start(cap), events, compaction);
    EndsOnce(Start(cap), events, compaction, r);
    NoEnding(events, r);
  }

  /** A call goes on while nothing ends it. */
  lemma CallGoesOn(cap: nat, before: seq<Event>, after: seq<Event>, r: ReadRequest)
    requires before <= after && Lawful(cap, after)
    requires forall i :: |before| <= i < |after| ==> !Ending(after[i], r)
    requires r in Now(cap, before).blocked && r !in Now(cap, before).returned
    ensures r in Now(cap, after).blocked && r !in Now(cap, after).returned
  {
    hide Start, Run, Legal, Endings, Sound;
    var rest := after[|before|..];
    assert after == before + rest;
    RunOn(Start(cap), before, rest);
    NowIsSound(cap, before);
    SoundOverRuns(Now(cap, before), rest, true);
    EndsOnce(Now(cap, before), rest, true, r);
    assert forall e :: e in rest ==> !Ending(e, r);
    NoEnding(rest, r);
  }

  // ---------- The counters ----------

  /** The counters lag behind the truth by exactly the timeouts of readers that had left already. */
  ghost predicate CountersTrack(w: World) {
    && w.s.queue.activeCount == Wrap64(|w.s.queue.live| - w.late)
    && w.s.queue.heapSize == Wrap64(|w.s.queue.heap| - w.skew)
  }

  lemma WriteTracks(w: World, data: seq<byte>)
    requires CountersTrack(w)
    ensures CountersTrack(AfterWrite(w, data))
  {
    hide Wrap64, Down64;
    if !w.s.closed {
      var q, total := w.s.queue, |w.s.stream + data|;
      SplitSize(q.heap, q.Passed(total), q.heap - q.Passed(total));
      SplitSize(q.live, q.Served(total), q.live - q.Served(total));
      DownWraps(|q.heap| - w.skew, |q.Passed(total)|);
      DownWraps(|q.live| - w.late, |q.Served(total)|);
    }
  }

  lemma BlockTracks(w: World, r: ReadRequest)
    requires CountersTrack(w) && w.s.queue.live <= w.s.queue.heap && r !in w.s.queue.heap
    ensures CountersTrack(AfterBlock(w, r))
  {
    hide Wrap64, Inc64;
    AddOne(w.s.queue.heap, r);
    AddOne(w.s.queue.live, r);
    CountersWrap(|w.s.queue.heap| - w.skew);
    CountersWrap(|w.s.queue.live| - w.late);
  }

  lemma TimeOutTracks(w: World, r: ReadRequest, compaction: bool)
    requires CountersTrack(w)
    ensures CountersTrack(AfterTimeOut(w, r, compaction))
  {
    hide Wrap64, Dec64, Queue.Compacts;
    var live := w.s.queue.live;
    CountersWrap(|live| - w.late);
    if r in live {
      RemoveOne(live, r);
    } else {
      assert live - {r} == live;
    }
  }

  lemma ReturnTracks(w: World, r: ReadRequest)
    requires CountersTrack(w)
    ensures CountersTrack(AfterReturn(w, r))
  {
  }

  lemma CloseTracks(w: World)
    requires CountersTrack(w)
    ensures CountersTrack(AfterClose(w))
  {
  }

  lemma StepTracks(w: World, e: Event, compaction: bool)
    requires Sound(w) && CountersTrack(w) && Possible(w, e)
    ensures CountersTrack(Step(w, e, compaction))
  {
    hide CountersTrack, AfterWrite, AfterBlock, AfterTimeOut, AfterClose;
    match e
    case Write(data) => WriteTracks(w, data);
    case Block(r) => BlockTracks(w, r);
    case TimeOut(r) => TimeOutTracks(w, r, compaction);
    case Return(r) => ReturnTracks(w, r);
    case Close => CloseTracks(w);
  }

  lemma {:induction false} CountersOverRuns(w: World, events: seq<Event>, compaction: bool)
    requires Sound(w) && CountersTrack(w) && Legal(w, events, compaction)
    ensures CountersTrack(Run(w, events, compaction))
    decreases |events|
  {
    if events != [] {
      StepIsSound(w, events[0], compaction);
      StepTracks(w, events[0], compaction);
      CountersOverRuns(Step(w, events[0], compaction), events[1..], compaction);
    }
  }

  /** Over every run the counter of waiting readers is right exactly when no reader has timed out
      after leaving the queue (up to 2^64 such mishaps, which cancel out); and that of entries, when
      none had done so by the last rebuild. */
  lemma CountExactIff(cap: nat, events: seq<Event>, compaction: bool)
    requires Legal(Start(cap), events, compaction)
    ensures var w := Run(Start(cap), events, compaction);
      && (|w.s.queue.live| < TWO_64 ==> (w.s.queue.activeCount == |w.s.queue.live| <==> w.late % TWO_64 == 0))
      && (|w.s.queue.heap| < TWO_64 ==> (w.s.queue.heapSize == |w.s.queue.heap| <==> w.skew % TWO_64 == 0))
  {
    hide Wrap64;
    StartIsSound(cap);
    CountersOverRuns(Start(cap), events, compaction);
    var w := Run(Start(cap), events, compaction);
    if |w.s.queue.live| < TWO_64 {
      LagIsVisible(|w.s.queue.live|, w.late);
    }
    if |w.s.queue.heap| < TWO_64 {
      LagIsVisible(|w.s.queue.heap|, w.skew);
    }
  }

  lemma LagIsVisible(n: nat, late: nat)
    requires n < TWO_64
    ensures Wrap64(n - late) == n <==> late % TWO_64 == 0
  {
    assert late == TWO_64 * (late / TWO_64) + late % TWO_64;
    var lag: int := 0 - (late as int);
    WrapTwice(lag, n);
    if late % TWO_64 != 0 {
      var d := TWO_64 - late % TWO_64;
      assert Wrap64(n - late) == Wrap64(n + d);
    }
  }

  // ---------- Rebuilding the heap changes nothing for anybody ----------

  /** Two worlds that differ at most in the cancelled entries their heaps still hold. */
  ghost predicate Alike(a: World, b: World) {
    && a.s.cap == b.s.cap && a.s.stream == b.s.stream && a.s.closed == b.s.closed
    && a.s.queue.live == b.s.queue.live && a.s.queue.activeCount == b.s.queue.activeCount
    && a.blocked == b.blocked && a.returned == b.returned && a.fate == b.fate
    && a.late == b.late && a.peak == b.peak
  }

  lemma StepsAlike(a: World, b: World, e: Event)
    requires Alike(a, b)
    ensures Possible(a, e) <==> Possible(b, e)
    ensures Alike(Step(a, e, true), Step(b, e, false))
  {
  }

  lemma {:induction false} AlikeOverRuns(a: World, b: World, events: seq<Event>)
    requires Alike(a, b)
    ensures Legal(a, events, true) <==> Legal(b, events, false)
    ensures Alike(Run(a, events, true), Run(b, events, false))
    decreases |events|
  {
    if events != [] {
      StepsAlike(a, b, events[0]);
      AlikeOverRuns(Step(a, events[0], true), Step(b, events[0], false), events[1..]);
    }
  }

  /** A run with compaction and the same run without: the same events are possible, the same
      readers wait, and every reader is told the same at the same time. */
  lemma CompactionIsInvisible(cap: nat, events: seq<Event>)
    ensures Legal(Start(cap), events, true) <==> Legal(Start(cap), events, false)
    ensures Alike(Run(Start(cap), events, true), Run(Start(cap), events, false))
  {
    AlikeOverRuns(Start(cap), Start(cap), events);
  }

  // ---------- The stream is all that counts ----------

  /** The bytes a run offers before it closes the buffer. */
  function Offered(events: seq<Event>): seq<byte>
    decreases |events|
  {
    if events == [] || events[0].Close? then []
    else (if events[0].Write? then events[0].data else []) + Offered(events[1..])
  }

  lemma StepStream(w: World, e: Event, compaction: bool)
    ensures var s := Step(w, e, compaction).s;
      && s.cap == w.s.cap && s.closed == (w.s.closed || e.Close?)
      && s.stream == if e.Write? && !w.s.closed then w.s.stream + e.data else w.s.stream
  {
  }

  lemma {:induction false} RunCloses(w: World, events: seq<Event>, compaction: bool)
    ensures var s := Run(w, events, compaction).s; s.cap == w.s.cap && s.closed == (w.s.closed || Close in events)
    decreases |events|
  {
    if events != [] {
      hide Step;
      var e, rest := events[0], events[1..];
      StepStream(w, e, compaction);
      RunCloses(Step(w, e, compaction), rest, compaction);
      assert events == [e] + rest;
    }
  }

  lemma OfferedFirst(e: Event, rest: seq<Event>)
    ensures Offered([e] + rest) == if e.Close? then [] else (if e.Write? then e.data else []) + Offered(rest)
  {
    assert ([e] + rest)[1..] == rest;
  }

  lemma {:induction false} RunWrites(w: World, events: seq<Event>, compaction: bool)
    ensures Run(w, events, compaction).s.stream == w.s.stream + (if w.s.closed then [] else Offered(events))
    decreases |events|
  {
    if events != [] {
      hide Step, Offered;
      var e, rest := events[0], events[1..];
      StepStream(w, e, compaction);
      RunWrites(Step(w, e, compaction), rest, compaction);
      assert events == [e] + rest;
      OfferedFirst(e, rest);
      if e.Write? && !w.s.closed {
        assert (w.s.stream + e.data) + Offered(rest) == w.s.stream + (e.data + Offered(rest));
      } else if !e.Close? {
        assert [] + Offered(rest) == Offered(rest);
      }
    } else {
      assert w.s.stream + [] == w.s.stream;
    }
  }

  lemma RunStream(w: World, events: seq<Event>, compaction: bool)
    ensures var w' := Run(w, events, compaction);
      && w'.s.cap == w.s.cap
      && w'.s.stream == w.s.stream + (if w.s.closed then [] else Offered(events))
      && w'.s.closed == (w.s.closed || Close in events)
  {
    RunCloses(w, events, compaction);
    RunWrites(w, events, compaction);
  }

  /** Whatever the chunks in which the same bytes arrive, whoever waits in between, and however
      often the heap is rebuilt: two buffers with the same limit answer every read alike. */
  lemma ChunkingIsInvisible(cap: nat, first: seq<Event>, second: seq<Event>, compaction: bool, begin: nat, count: nat)
    requires Offered(first) == Offered(second) && (Close in first <==> Close in second)
    ensures Run(Start(cap), first, compaction).s.Read(begin, count) == Run(Start(cap), second, !compaction).s.Read(begin, count)
  {
    RunStream(Start(cap), first, compaction);
    RunStream(Start(cap), second, !compaction);
  }
}
