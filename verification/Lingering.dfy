/** How many cancelled entries linger in the heap of the waiting list, over all runs. */
module Lingering {
  import opened Bytes
  import opened StreamSpec
  import opened Readers
  import opened BufferSpec
  import opened BufferRuns

  function Dead(w: World): nat {
    |w.s.queue.heap - w.s.queue.live|
  }

  /** The bound on cancelled entries, given the most readers that ever waited at once. */
  ghost predicate WithinBound(w: World) {
    Dead(w) <= Max(1000, 7 * w.peak)
  }

  ghost predicate Orderly(w: World) {
    Sound(w) && CountersTrack(w) && Bounded(w)
  }

  ghost predicate Bounded(w: World) {
    && w.skew <= w.late && |w.s.queue.live| <= w.peak
    && (w.late == 0 ==> WithinBound(w))
  }

  // ---------- As long as no reader has timed out after having left ----------

  lemma {:induction false} Subset(a: set<ReadRequest>, b: set<ReadRequest>)
    requires forall r :: r in a ==> r in b
    ensures |a| <= |b|
  {
    SplitSize(b, b - a, a);
  }

  /** Right after a timeout the counters stand in that proportion, whatever has happened before. */
  lemma CancelBoundsCounters(q: Queue, r: ReadRequest)
    ensures q.Cancel(r, true).heapSize <= Max(1000, 8 * q.Cancel(r, true).activeCount)
  {
  }

  /** A heap of at most 1000 entries, or of at most eight for each reader that will still wait, is
      left as it is; any other is rebuilt from the readers that still wait (as long as eight times their
      number fits the counter). */
  lemma RebuiltIff(q: Queue, r: ReadRequest)
    requires 8 * Dec64(q.activeCount) < 0x1_0000_0000_0000_0000
    ensures var q' := q.Cancel(r, true);
      if q.heapSize <= 1000 || q.heapSize <= 8 * Dec64(q.activeCount) then q'.heap == q.heap && q'.heapSize == q.heapSize
      else q'.heap == q.live - {r} && q'.heapSize == q'.activeCount
  {
    SmallFits(8 * Dec64(q.activeCount));
  }

  /** A small heap is never rebuilt, whatever the counters say. */
  lemma SmallHeapStays(q: Queue, r: ReadRequest)
    requires q.heapSize <= 1000
    ensures q.Cancel(r, true).heap == q.heap
  {
  }

  lemma CompactionBounds(q: Queue, r: ReadRequest)
    requires q.live <= q.heap && r in q.live && |q.live| < TWO_63 / 8
    requires q.heapSize == |q.heap| && q.activeCount == |q.live|
    ensures var q' := q.Cancel(r, true);
      && q'.live == q.live - {r} && q'.live <= q'.heap
      && |q'.heap| <= Max(1000, 8 * |q'.live|)
      && |q'.heap - q'.live| == |q'.heap| - |q'.live|
      && q'.heapSize == |q'.heap| && q'.activeCount == |q'.live|
  {
    var q' := q.Cancel(r, true);
    RemoveOne(q.live, r);
    SplitSize(q'.heap, q'.heap - q'.live, q'.live);
    assert Dec64(q.activeCount) == |q'.live|;
    assert Wrap64(|q'.live| * 8) == |q'.live| * 8;
  }

  /** Right after a timeout the heap holds at most 1000 entries, or at most eight for each reader
      that still waits, if no reader has timed out after having left. */
  lemma TimeOutBounds(w: World, r: ReadRequest)
    requires Orderly(w) && Possible(w, TimeOut(r)) && w.peak < TWO_63 / 8
    ensures var w' := AfterTimeOut(w, r, true); var q := w'.s.queue;
      w'.late == 0 ==>
        && |q.heap| <= Max(1000, 8 * |q.live|)
        && q.heapSize == |q.heap| && q.activeCount == |q.live|
        && Dead(w') == |q.heap| - |q.live|
  {
    hide Queue.Compacts, Wrap64, Dec64;
    if r in w.s.queue.live && w.late == 0 {
      CountersExact(w);
      CompactionBounds(w.s.queue, r);
    }
  }

  lemma CountersExact(w: World)
    requires Orderly(w) && w.late == 0 && w.peak < TWO_63 / 8
    ensures var q := w.s.queue; q.live <= q.heap && q.heapSize == |q.heap| && q.activeCount == |q.live| <= w.peak
  {
    hide Wrap64, FateIsRight, ReturnsRight;
    var q := w.s.queue;
    SplitSize(q.heap, q.heap - q.live, q.live);
    SmallFits(|q.heap|);
    SmallFits(|q.live|);
  }

  lemma SmallFits(n: nat)
    requires n < TWO_64
    ensures Wrap64(n) == n
  {
  }

  /** Where entries only leave, and no more readers wait than before, the bound stays. */
  lemma FewerStayBounded(w: World, w': World)
    requires Bounded(w) && w'.skew <= w'.late && w.peak <= w'.peak && (w'.late == 0 ==> w.late == 0)
    requires forall r :: r in w'.s.queue.live ==> r in w.s.queue.live
    requires forall r :: r in w'.s.queue.heap && r !in w'.s.queue.live ==> r in w.s.queue.heap && r !in w.s.queue.live
    ensures Bounded(w')
  {
    var q, q' := w.s.queue, w'.s.queue;
    Subset(q'.heap - q'.live, q.heap - q.live);
    Subset(q'.live, q.live);
  }

  lemma WriteStaysBounded(w: World, data: seq<byte>)
    requires Bounded(w)
    ensures Bounded(AfterWrite(w, data))
  {
    hide Down64;
    if !w.s.closed {
      FewerStayBounded(w, AfterWrite(w, data));
    }
  }

  lemma BlockStaysBounded(w: World, r: ReadRequest)
    requires Bounded(w)
    ensures Bounded(AfterBlock(w, r))
  {
    var q, q' := w.s.queue, AfterBlock(w, r).s.queue;
    Subset(q'.heap - q'.live, q.heap - q.live);
  }

  lemma TimeOutStaysBounded(w: World, r: ReadRequest)
    requires Orderly(w) && Possible(w, TimeOut(r)) && w.peak < TWO_63 / 8
    ensures Bounded(AfterTimeOut(w, r, true))
  {
    hide Sound, CountersTrack, Queue.Compacts;
    Subset(w.s.queue.live - {r}, w.s.queue.live);
    TimeOutBounds(w, r);
  }

  lemma StepIsOrderly(w: World, e: Event)
    requires Orderly(w) && Possible(w, e) && w.peak < TWO_63 / 8
    ensures Orderly(Step(w, e, true))
  {
    hide Sound, CountersTrack, AfterWrite, AfterBlock, AfterTimeOut;
    StepIsSound(w, e, true);
    StepTracks(w, e, true);
    match e
    case Write(data) => WriteStaysBounded(w, data);
    case Block(r) => BlockStaysBounded(w, r);
    case TimeOut(r) => TimeOutStaysBounded(w, r);
    case Return(_) =>
    case Close =>
  }

  lemma {:induction false} PeakGrows(w: World, events: seq<Event>)
    ensures w.peak <= Run(w, events, true).peak
    decreases |events|
  {
    if events != [] {
      PeakGrows(Step(w, events[0], true), events[1..]);
    }
  }

  lemma RunPrefix(w: World, events: seq<Event>, j: nat)
    requires 0 < j <= |events|
    ensures Run(w, events[..j], true) == Run(Step(w, events[0], true), events[1..][..j - 1], true)
  {
    hide Step;
    assert events[..j][1..] == events[1..][..j - 1];
  }

  /** The peak is the largest number of readers that waited at once at any moment of the run. */
  lemma {:induction false} PeakIsLargest(w: World, events: seq<Event>) returns (k: nat)
    ensures k <= |events|
    ensures var p := Run(w, events, true).peak; p == w.peak || p == |Run(w, events[..k], true).s.queue.live|
    ensures forall j :: 0 < j <= |events| ==> |Run(w, events[..j], true).s.queue.live| <= Max(|w.s.queue.live|, Run(w, events, true).peak)
    ensures Run(w, events, true).peak >= w.peak
    decreases |events|
  {
    k := 0;
    if events != [] {
      hide Step;
      var rest, w1 := events[1..], Step(w, events[0], true);
      PeakStep(w, events[0]);
      k := PeakIsLargest(w1, rest);
      RunPrefix(w, events, k + 1);
      RunPrefix(w, events, 1);
      assert rest[..0] == [] && Run(w1, rest[..0], true) == w1;
      forall j | 0 < j <= |events|
        ensures |Run(w, events[..j], true).s.queue.live| <= Max(|w.s.queue.live|, Run(w, events, true).peak)
      {
        RunPrefix(w, events, j);
      }
      k := if Run(w1, rest, true).peak == w1.peak then 1 else k + 1;
    }
  }

  lemma PeakStep(w: World, e: Event)
    ensures var w1 := Step(w, e, true);
      && w.peak <= w1.peak && (w1.peak == w.peak || w1.peak == |w1.s.queue.live|)
      && |w1.s.queue.live| <= Max(|w.s.queue.live|, w1.peak)
  {
    var q, q' := w.s.queue, Step(w, e, true).s.queue;
    if !e.Block? {
      hide Down64, Queue.Compacts;
      Subset(q'.live, q.live);
    }
  }

  /** So over every run from the start it is exactly that. */
  lemma PeakIsExact(cap: nat, events: seq<Event>) returns (k: nat)
    ensures k <= |events| && |Run(Start(cap), events[..k], true).s.queue.live| == Run(Start(cap), events, true).peak
    ensures forall j :: 0 <= j <= |events| ==> |Run(Start(cap), events[..j], true).s.queue.live| <= Run(Start(cap), events, true).peak
  {
    k := PeakIsLargest(Start(cap), events);
    assert events[..0] == [] && Run(Start(cap), events[..0], true) == Start(cap);
    assert |Start(cap).s.queue.live| == 0;
    if Run(Start(cap), events, true).peak == 0 {
      k := 0;
    }
    forall j | 0 <= j <= |events|
      ensures |Run(Start(cap), events[..j], true).s.queue.live| <= Run(Start(cap), events, true).peak
    {
      if j == 0 {
        assert Run(Start(cap), events[..j], true) == Start(cap);
      }
    }
  }

  lemma {:induction false} OrderlyOverRuns(w: World, events: seq<Event>)
    requires Orderly(w) && Legal(w, events, true) && Run(w, events, true).peak < TWO_63 / 8
    ensures Orderly(Run(w, events, true))
    decreases |events|
  {
    if events != [] {
      PeakGrows(w, events);
      StepIsOrderly(w, events[0]);
      OrderlyOverRuns(Step(w, events[0], true), events[1..]);
    }
  }

  lemma StartIsOrderly(cap: nat)
    ensures Orderly(Start(cap))
  {
  }

  /** Over every run, with at most P readers waiting at any one time, at most max(1000, 7 P) cancelled
      entries linger while no reader is on record that has timed out after having left the queue. */
  lemma DeadEntriesBounded(cap: nat, events: seq<Event>)
    requires Legal(Start(cap), events, true) && Run(Start(cap), events, true).peak < TWO_63 / 8
    ensures var w := Run(Start(cap), events, true); w.late == 0 ==> WithinBound(w)
  {
    StartIsOrderly(cap);
    OrderlyOverRuns(Start(cap), events);
  }

  // ---------- Once one has ----------

  /** Does every timeout in the run hit a reader that still waits? */
  predicate Punctual(w: World, events: seq<Event>)
    decreases |events|
  {
    events != [] ==>
      && (events[0].TimeOut? ==> events[0].r in w.s.queue.live)
      && Punctual(Step(w, events[0], true), events[1..])
  }

  /** Do these events lead from one world to the other, without a late timeout? */
  ghost predicate LeadsTo(w: World, events: seq<Event>, w': World) {
    Legal(w, events, true) && Punctual(w, events) && Run(w, events, true) == w'
  }

  lemma NoEvents(w: World)
    ensures LeadsTo(w, [], w)
  {
  }

  lemma {:induction false} FirstThen(w: World, e: Event, events: seq<Event>, w': World)
    requires Possible(w, e) && (e.TimeOut? ==> e.r in w.s.queue.live) && LeadsTo(Step(w, e, true), events, w')
    ensures LeadsTo(w, [e] + events, w')
  {
    hide Step, Possible;
    assert ([e] + events)[1..] == events;
  }

  lemma {:induction false} InSequence(w: World, first: seq<Event>, w': World, later: seq<Event>, w'': World)
    requires LeadsTo(w, first, w') && LeadsTo(w', later, w'')
    ensures LeadsTo(w, first + later, w'')
    decreases |first|
  {
    hide Step, Possible;
    if first == [] {
      assert first + later == later;
    } else {
      InSequence(Step(w, first[0], true), first[1..], w', later, w'');
      FirstThen(w, first[0], first[1..] + later, w'');
      assert [first[0]] + (first[1..] + later) == first + later;
    }
  }

  const TWO_58: int := 0x400_0000_0000_0000

  /** An open buffer with late timeouts on record, whose counter of entries is no larger than the
      number of entries. */
  ghost predicate Pressed(w: World) {
    && Sound(w) && CountersTrack(w) && !w.s.closed && |w.s.queue.live| <= w.peak
    && 1 <= w.late < TWO_58 && w.skew <= w.late && w.skew <= |w.s.queue.heap| && |w.blocked| < TWO_58
  }

  /** Requests that have never been used, and would have to wait. */
  ghost predicate Unused(w: World, rs: seq<ReadRequest>) {
    && (forall i :: 0 <= i < |rs| ==> rs[i] !in w.blocked && rs[i].begin >= |w.s.stream|)
    && (forall i, j :: 0 <= i < j < |rs| ==> rs[i] != rs[j])
  }

  /** A counter below zero, as it appears to `cancel`, makes the heap seem small. */
  lemma BelowZero(d: int, n: nat)
    requires 1 <= d <= TWO_58 && n < TWO_58
    ensures Wrap64(-d) == TWO_64 - d && Wrap64(Wrap64(-d) * 8) == TWO_64 - 8 * d > n
  {
    hide Wrap64;
    WrapIs(-d, -1, TWO_64 - d);
    WrapIs((TWO_64 - d) * 8, 7, TWO_64 - 8 * d);
  }

  lemma TimeOutKeepsPressed(w: World, r: ReadRequest)
    requires Pressed(w) && r in w.s.queue.live
    ensures Possible(w, TimeOut(r)) && Pressed(AfterTimeOut(w, r, true))
    ensures var w' := AfterTimeOut(w, r, true);
      && w'.s.queue.live == w.s.queue.live - {r} && w'.late == w.late && w'.peak == w.peak
      && w'.s.stream == w.s.stream && w'.blocked == w.blocked
      && (|w.s.queue.live| <= w.late ==> w'.s.queue.heap == w.s.queue.heap)
  {
    var q := w.s.queue;
    RemoveOne(q.live, r);
    Subset(q.heap, w.blocked);
    TimeOutIsSound(w, r, true);
    TimeOutTracks(w, r, true);
    CountersWrap(|q.live| - w.late);
    if |q.live| <= w.late {
      BelowZero(w.late - |q.live| + 1, |q.heap| - w.skew);
    }
  }

  /** All waiting readers time out, one by one. */
  lemma {:induction false} ExpireAll(w: World) returns (events: seq<Event>, w': World)
    requires Pressed(w)
    ensures LeadsTo(w, events, w') && Pressed(w') && w'.s.queue.live == {}
    ensures w'.late == w.late && w'.peak == w.peak && w'.s.stream == w.s.stream && w'.blocked == w.blocked
    decreases |w.s.queue.live|
  {
    hide Pressed, LeadsTo;
    if w.s.queue.live == {} {
      NoEvents(w);
      events, w' := [], w;
    } else {
      var r :| r in w.s.queue.live;
      TimeOutKeepsPressed(w, r);
      RemoveOne(w.s.queue.live, r);
      var rest;
      rest, w' := ExpireAll(AfterTimeOut(w, r, true));
      FirstThen(w, TimeOut(r), rest, w');
      events := [TimeOut(r)] + rest;
    }
  }

  lemma BlockOne(w: World, r: ReadRequest)
    requires Sound(w) && CountersTrack(w) && !w.s.closed && |w.s.queue.live| <= w.peak
    requires r !in w.blocked && r.begin >= |w.s.stream|
    ensures Possible(w, Block(r))
    ensures var w' := AfterBlock(w, r);
      && Sound(w') && CountersTrack(w') && !w'.s.closed && |w'.s.queue.live| <= w'.peak <= w.peak + 1
      && w'.s.stream == w.s.stream && w'.late == w.late && w'.skew == w.skew
      && |w'.s.queue.heap| == |w.s.queue.heap| + 1 && w'.blocked == w.blocked + {r} && |w'.blocked| == |w.blocked| + 1
  {
    BlockIsSound(w, r);
    BlockTracks(w, r);
    AddOne(w.blocked, r);
    AddOne(w.s.queue.heap, r);
    AddOne(w.s.queue.live, r);
  }

  lemma UnusedRest(w: World, rs: seq<ReadRequest>, w': World)
    requires Unused(w, rs) && rs != [] && w'.blocked == w.blocked + {rs[0]} && w'.s.stream == w.s.stream
    ensures Unused(w', rs[1..])
  {
  }

  /** Many readers start to wait. */
  lemma {:induction false} BlockAll(w: World, rs: seq<ReadRequest>) returns (events: seq<Event>, w': World)
    requires Sound(w) && CountersTrack(w) && !w.s.closed && |w.s.queue.live| <= w.peak && Unused(w, rs)
    ensures LeadsTo(w, events, w')
    ensures Sound(w') && CountersTrack(w') && !w'.s.closed && |w'.s.queue.live| <= w'.peak <= w.peak + |rs|
    ensures w'.s.stream == w.s.stream && w'.late == w.late && w'.skew == w.skew
    ensures |w'.s.queue.heap| == |w.s.queue.heap| + |rs| && |w'.blocked| == |w.blocked| + |rs|
    ensures forall r :: r in w'.blocked ==> r in w.blocked || r in rs
    decreases |rs|
  {
    hide Sound, CountersTrack, LeadsTo, AfterBlock, Possible, Unused;
    if rs == [] {
      NoEvents(w);
      events, w' := [], w;
    } else {
      var w1 := AfterBlock(w, rs[0]);
      assert rs[0] !in w.blocked && rs[0].begin >= |w.s.stream| by { UnusedFirst(w, rs); }
      BlockOne(w, rs[0]);
      UnusedRest(w, rs, w1);
      var rest;
      rest, w' := BlockAll(w1, rs[1..]);
      FirstThen(w, Block(rs[0]), rest, w');
      events := [Block(rs[0])] + rest;
    }
  }

  /** One after the other, readers wait and time out: each leaves an entry behind for good. */
  lemma {:induction false} TakeTurns(w: World, rs: seq<ReadRequest>) returns (events: seq<Event>, w': World)
    requires Pressed(w) && w.s.queue.live == {} && Unused(w, rs) && |w.blocked| + |rs| < TWO_58
    ensures LeadsTo(w, events, w') && w'.s.queue.live == {}
    ensures |w'.s.queue.heap| == |w.s.queue.heap| + |rs| && w.peak <= w'.peak <= Max(w.peak, 1) && w'.late == w.late
    decreases |rs|
  {
    hide Pressed, LeadsTo, Possible, Unused, AfterTimeOut, AfterBlock;
    if rs == [] {
      NoEvents(w);
      events, w' := [], w;
    } else {
      var r := rs[0];
      var w1 := AfterBlock(w, r);
      var w2 := AfterTimeOut(w1, r, true);
      UnusedFirst(w, rs);
      Turn(w, r);
      UnusedRest(w, rs, w2);
      var rest;
      rest, w' := TakeTurns(w2, rs[1..]);
      FirstThen(w1, TimeOut(r), rest, w');
      FirstThen(w, Block(r), [TimeOut(r)] + rest, w');
      events := [Block(r)] + ([TimeOut(r)] + rest);
    }
  }

  lemma UnusedFirst(w: World, rs: seq<ReadRequest>)
    requires Unused(w, rs) && rs != []
    ensures rs[0] !in w.blocked && rs[0].begin >= |w.s.stream|
  {
  }

  lemma Turn(w: World, r: ReadRequest)
    requires Pressed(w) && w.s.queue.live == {} && |w.blocked| + 1 < TWO_58
    requires r !in w.blocked && r.begin >= |w.s.stream|
    ensures var w1 := AfterBlock(w, r); var w2 := AfterTimeOut(w1, r, true);
      && Possible(w, Block(r)) && Possible(w1, TimeOut(r)) && r in w1.s.queue.live
      && Pressed(w2) && w2.s.queue.live == {} && |w2.s.queue.heap| == |w.s.queue.heap| + 1
      && w.peak <= w2.peak <= Max(w.peak, 1) && w2.late == w.late && w2.blocked == w.blocked + {r} && |w2.blocked| == |w.blocked| + 1
      && w2.s.stream == w.s.stream
  {
    BlockOne(w, r);
    var w1 := AfterBlock(w, r);
    assert w1.s.queue.live == {r};
    TimeOutKeepsPressed(w1, r);
  }

  /** From any open buffer with a late timeout on record, readers that never time out late themselves
      can make the entries left behind exceed the bound. */
  lemma PileUp(w: World, rs: seq<ReadRequest>) returns (events: seq<Event>)
    requires Orderly(w) && !w.s.closed && 1 <= w.late < TWO_58
    requires Unused(w, rs) && |w.blocked| + |rs| < TWO_58
    requires |rs| > w.late + Max(1000, 7 * (w.peak + w.late))
    ensures Legal(w, events, true) && Punctual(w, events)
    ensures Run(w, events, true).peak <= w.peak + w.late && !WithinBound(Run(w, events, true))
  {
    hide Sound, CountersTrack, Legal, Punctual, Run;
    var many, others := rs[..w.late], rs[w.late..];
    var e1, w1 := BlockAll(w, many);
    var e2, w2 := ExpireAll(w1);
    assert Unused(w2, others);
    var e3, w3 := TakeTurns(w2, others);
    InSequence(w, e1, w1, e2, w2);
    InSequence(w, e1 + e2, w2, e3, w3);
    events := (e1 + e2) + e3;
    assert w3.s.queue.heap - w3.s.queue.live == w3.s.queue.heap;
  }

  lemma {:induction false} StaysPunctual(w: World, events: seq<Event>)
    requires Legal(w, events, true) && Punctual(w, events)
    ensures w.late == 0 ==> Run(w, events, true).late == 0
    ensures w.s.closed ==> Run(w, events, true).s.closed
    decreases |events|
  {
    if events != [] {
      StaysPunctual(Step(w, events[0], true), events[1..]);
    }
  }

  /** The bound on cancelled entries is kept on all continuations whose timeouts are punctual, if and
      only if the buffer is closed or no late timeout is on record. `rs` are requests to come. */
  lemma BoundKeptIff(cap: nat, events: seq<Event>, rs: seq<ReadRequest>)
    requires Legal(Start(cap), events, true)
    requires var w := Run(Start(cap), events, true);
      && Unused(w, rs) && |w.blocked| + |rs| < TWO_58 && |rs| > w.late + Max(1000, 7 * (w.peak + w.late))
    ensures var w := Run(Start(cap), events, true);
      w.s.closed || w.late == 0 <==>
        forall later :: Legal(w, later, true) && Punctual(w, later) && Run(w, later, true).peak < TWO_63 / 8 ==>
          WithinBound(Run(w, later, true))
  {
    hide Sound, CountersTrack, WithinBound, Bounded, Legal, Punctual, Run, Unused;
    StartIsOrderly(cap);
    OrderlyOverRuns(Start(cap), events);
    var w := Run(Start(cap), events, true);
    if w.s.closed || w.late == 0 {
      forall later | Legal(w, later, true) && Punctual(w, later) && Run(w, later, true).peak < TWO_63 / 8
        ensures WithinBound(Run(w, later, true))
      {
        StaysPunctual(w, later);
        OrderlyOverRuns(w, later);
        OrderlyIsWithinBound(Run(w, later, true));
      }
    } else {
      var later := PileUp(w, rs);
      assert Legal(w, later, true);
    }
  }

  lemma OrderlyIsWithinBound(w: World)
    requires Orderly(w) && (w.s.closed || w.late == 0)
    ensures WithinBound(w)
  {
    if w.s.closed {
      assert w.s.queue.heap - w.s.queue.live == {};
    }
  }

  // ---------- An example ----------

  lemma ServedFirst(cap: nat, first: ReadRequest, b: byte)
    requires first.begin == 0
    ensures var w1 := AfterBlock(Start(cap), first); var w2 := AfterWrite(w1, [b]);
      && Possible(Start(cap), Block(first)) && Possible(w1, Write([b])) && Possible(w2, TimeOut(first))
      && Sound(w2) && CountersTrack(w2) && w2.s.stream == [b] && !w2.s.closed && w2.blocked == {first}
      && w2.s.queue.heap == w2.s.queue.live == {} && w2.late == w2.skew == 0 && w2.peak == 1
  {
    hide Down64;
    var w0 := Start(cap);
    var w1 := AfterBlock(w0, first);
    StartIsSound(cap);
    assert w1.s.queue.live == {first} == w1.s.queue.heap;
    StepIsSound(w0, Block(first), true);
    StepTracks(w0, Block(first), true);
    WriteIsSound(w1, [b]);
    WriteTracks(w1, [b]);
  }

  lemma FirstMishap(cap: nat, first: ReadRequest, b: byte)
    requires first.begin == 0
    ensures var w1 := AfterBlock(Start(cap), first); var w2 := AfterWrite(w1, [b]); var w3 := AfterTimeOut(w2, first, true);
      && Possible(Start(cap), Block(first)) && Possible(w1, Write([b])) && Possible(w2, TimeOut(first))
      && w3.s.queue.heap == w3.s.queue.live == {} && w3.late == w3.peak == 1
      && Pressed(w3) && w3.blocked == {first} && w3.s.stream == [b]
  {
    hide Sound, CountersTrack, AfterBlock, AfterWrite, Possible;
    ServedFirst(cap, first, b);
    var w2 := AfterWrite(AfterBlock(Start(cap), first), [b]);
    TimeOutIsSound(w2, first, true);
    TimeOutTracks(w2, first, true);
    NotRebuilt(w2, first);
  }

  /** A small heap is not rebuilt. */
  lemma NotRebuilt(w: World, r: ReadRequest)
    requires CountersTrack(w) && w.s.queue.heap == {} && w.skew == 0
    ensures AfterTimeOut(w, r, true).s.queue.heap == {} && AfterTimeOut(w, r, true).skew == 0
  {
  }

  lemma FirstFate(cap: nat, first: ReadRequest, b: byte)
    requires first.begin == 0 && first.count > 0
    ensures var w2 := AfterWrite(AfterBlock(Start(cap), first), [b]);
      first in w2.fate && w2.fate[first] == Served(0, 1, [b])
  {
    hide Down64;
    var w1 := AfterBlock(Start(cap), first);
    assert first in w1.s.queue.Served(1) && w1.s.stream + [b] == [b];
    assert Portion([b], first) == [b];
  }

  lemma ThreeEvents(w: World, first: Event, second: Event, third: Event)
    requires Possible(w, first) && Possible(Step(w, first, true), second)
    requires Possible(Step(Step(w, first, true), second, true), third)
    ensures Legal(w, [first, second, third], true)
    ensures Run(w, [first, second, third], true) == Step(Step(Step(w, first, true), second, true), third, true)
  {
    hide Step, Possible;
    var w1 := Step(w, first, true);
    var w2 := Step(w1, second, true);
    var w3 := Step(w2, third, true);
    assert [third][1..] == [] && [second, third][1..] == [third] && [first, second, third][1..] == [second, third];
    assert Legal(w3, [], true) && Run(w3, [], true) == w3;
    assert Legal(w2, [third], true) && Run(w2, [third], true) == Run(w3, [third][1..], true);
    assert Legal(w1, [second, third], true) && Run(w1, [second, third], true) == w3;
  }

  /** A read may be served and still return a timeout. */
  lemma ServedButTimedOut(cap: nat, first: ReadRequest, b: byte)
    requires first.begin == 0 && first.count > 0
    ensures var events := [Block(first), Write([b]), TimeOut(first)];
      && Legal(Start(cap), events, true)
      && var w := Run(Start(cap), events, true);
         && first in w.fate && w.fate[first] == Served(0, 1, [b])
         && first in w.returned && w.returned[first] == TIMEOUT != Told(first, w.fate[first]) == DataAt(0, 1)
  {
    hide AfterBlock, AfterWrite, Legal, Run;
    FirstMishap(cap, first, b);
    FirstFate(cap, first, b);
    ServedFirst(cap, first, b);
    ThreeEvents(Start(cap), Block(first), Write([b]), TimeOut(first));
    var w2 := AfterWrite(AfterBlock(Start(cap), first), [b]);
    assert Run(Start(cap), [Block(first), Write([b]), TimeOut(first)], true) == AfterTimeOut(w2, first, true);
  }

  /** A single reader that is served but wakes by its timeout makes `cancel` never rebuild the heap
      again: with never more than one reader waiting at a time, as many cancelled entries as one
      likes pile up. */
  lemma OneLateTimeOutDefeatsCompaction(cap: nat, first: ReadRequest, b: byte, rs: seq<ReadRequest>) returns (later: seq<Event>)
    requires first.begin == 0 && |rs| < TWO_58 - 1
    requires forall i :: 0 <= i < |rs| ==> rs[i] != first && rs[i].begin >= 1
    requires forall i, j :: 0 <= i < j < |rs| ==> rs[i] != rs[j]
    ensures var events := [Block(first), Write([b]), TimeOut(first)] + later;
      && Legal(Start(cap), events, true)
      && var w := Run(Start(cap), events, true);
         w.peak == 1 && w.late == 1 && Dead(w) == |rs|
  {
    hide AfterBlock, AfterWrite, AfterTimeOut, Pressed, Possible;
    var w0 := Start(cap);
    var w1 := AfterBlock(w0, first);
    var w2 := AfterWrite(w1, [b]);
    var w3 := AfterTimeOut(w2, first, true);
    FirstMishap(cap, first, b);
    var w;
    later, w := TakeTurns(w3, rs);
    var events := [Block(first), Write([b]), TimeOut(first)] + later;
    assert events[1..] == [Write([b]), TimeOut(first)] + later;
    assert events[1..][1..] == [TimeOut(first)] + later;
    assert events[1..][1..][1..] == later;
    assert Legal(w2, events[1..][1..], true) && Legal(w1, events[1..], true);
    assert Run(w0, events, true) == Run(w1, events[1..], true);
    assert Run(w1, events[1..], true) == Run(w2, events[1..][1..], true) == Run(w3, later, true);
    assert w.s.queue.heap - w.s.queue.live == w.s.queue.heap;
  }
}
