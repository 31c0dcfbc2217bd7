/** The polling client: it follows the output from position 0, shows what it receives, and
    announces what it has missed. */
module Client {
  import opened Bytes
  import opened StreamSpec
  import opened BufferSpec
  import opened Buffering
  import opened BufferRuns
  import opened Traffic
  import opened Polling
  import opened Frame

  /** What the client puts on its terminal; `newline` if an announcement starts on a fresh line. */
  datatype Shown = Announced(newline: bool, lost: nat) | Received(chunk: seq<byte>)

  function ReceivedBytes(shown: seq<Shown>): seq<byte> {
    if shown == [] then []
    else ReceivedBytes(shown[..|shown| - 1]) + (if shown[|shown| - 1].Received? then shown[|shown| - 1].chunk else [])
  }

  function LostCount(shown: seq<Shown>): nat {
    if shown == [] then 0
    else LostCount(shown[..|shown| - 1]) + (if shown[|shown| - 1].Announced? then shown[|shown| - 1].lost else 0)
  }

  /** The items cover the positions 0 to `end` without gap and without overlap, in order: each chunk
      is exactly the piece of the stream that lies where it stands, and each announcement counts
      the positions it stands for. */
  ghost predicate Tiles(shown: seq<Shown>, stream: seq<byte>, end: nat)
    decreases |shown|
  {
    && end <= |stream|
    && if shown == [] then end == 0
       else
         var before, last := shown[..|shown| - 1], shown[|shown| - 1];
         match last
         case Announced(newline, lost) => 0 < lost <= end && newline == (end - lost > 0) && Tiles(before, stream, end - lost)
         case Received(chunk) => |chunk| <= end && chunk == stream[end - |chunk|..end] && Tiles(before, stream, end - |chunk|)
  }

  lemma {:induction false} TilesLater(shown: seq<Shown>, before: seq<byte>, after: seq<byte>, end: nat)
    requires Tiles(shown, before, end) && before <= after
    ensures Tiles(shown, after, end)
    decreases |shown|
  {
    if shown != [] {
      var rest, last := shown[..|shown| - 1], shown[|shown| - 1];
      TilesLater(rest, before, after, end - if last.Announced? then last.lost else |last.chunk|);
    }
  }

  /** Conservation: bytes received plus bytes announced as discarded make up the position reached,
      and if nothing was announced the bytes received are the stream up to there. */
  lemma {:induction false} TilesAddUp(shown: seq<Shown>, stream: seq<byte>, end: nat)
    requires Tiles(shown, stream, end)
    ensures |ReceivedBytes(shown)| + LostCount(shown) == end
    ensures LostCount(shown) == 0 ==> ReceivedBytes(shown) == stream[..end]
    decreases |shown|
  {
    if shown != [] {
      var rest, last := shown[..|shown| - 1], shown[|shown| - 1];
      TilesAddUp(rest, stream, end - if last.Announced? then last.lost else |last.chunk|);
      if last.Received? {
        assert stream[..end] == stream[..end - |last.chunk|] + stream[end - |last.chunk|..end];
      }
    }
  }

  /** Every announcement covers only positions before `oldest`, given that the items end at `end`. */
  ghost predicate AnnouncesOnlyLost(shown: seq<Shown>, end: nat, oldest: nat)
    decreases |shown|
  {
    shown != [] ==>
      var before, last := shown[..|shown| - 1], shown[|shown| - 1];
      match last
      case Announced(_, lost) => lost <= end <= oldest && AnnouncesOnlyLost(before, end - lost, oldest)
      case Received(chunk) => |chunk| <= end && AnnouncesOnlyLost(before, end - |chunk|, oldest)
  }

  lemma {:induction false} OnlyLostLater(shown: seq<Shown>, end: nat, before: nat, after: nat)
    requires AnnouncesOnlyLost(shown, end, before) && before <= after
    ensures AnnouncesOnlyLost(shown, end, after)
    decreases |shown|
  {
    if shown != [] {
      var rest, last := shown[..|shown| - 1], shown[|shown| - 1];
      OnlyLostLater(rest, end - if last.Announced? then last.lost else |last.chunk|, before, after);
    }
  }

  lemma OnlyLostAppend(shown: seq<Shown>, end: nat, oldest: nat, item: Shown)
    requires AnnouncesOnlyLost(shown, end, oldest)
    ensures item.Received? ==> AnnouncesOnlyLost(shown + [item], end + |item.chunk|, oldest)
    ensures item.Announced? && end + item.lost <= oldest ==> AnnouncesOnlyLost(shown + [item], end + item.lost, oldest)
  {
    var next := shown + [item];
    assert next[..|next| - 1] == shown;
  }

  /** So never more is announced than there is before `oldest`. */
  lemma {:induction false} OnlyLostBounds(shown: seq<Shown>, stream: seq<byte>, end: nat, oldest: nat)
    requires Tiles(shown, stream, end) && AnnouncesOnlyLost(shown, end, oldest)
    ensures LostCount(shown) <= oldest
    decreases |shown|
  {
    if shown != [] {
      var rest, last := shown[..|shown| - 1], shown[|shown| - 1];
      if last.Announced? {
        TilesAddUp(shown, stream, end);
      } else {
        OnlyLostBounds(rest, stream, end - |last.chunk|, oldest);
      }
    }
  }

  /** One poll: how it unfolds at the server, and in which chunks the response arrives. */
  datatype Poll = Poll(plan: Plan, arrive: seq<byte> -> seq<seq<byte>>)

  function PollsTotal(polls: seq<Poll>): nat {
    if polls == [] then 0 else polls[0].plan.Total() + PollsTotal(polls[1..])
  }

  lemma SliceSplits(stream: seq<byte>, position: nat, a: seq<byte>, b: seq<byte>)
    requires Slice(stream, position, a + b)
    ensures Slice(stream, position, a) && Slice(stream, position + |a|, b)
  {
    assert a == (a + b)[..|a|] && b == (a + b)[|a|..];
  }

  lemma TilesAppend(shown: seq<Shown>, stream: seq<byte>, position: nat, item: Shown)
    requires Tiles(shown, stream, position)
    ensures item.Received? && Slice(stream, position, item.chunk) ==>
      Tiles(shown + [item], stream, position + |item.chunk|) && LostCount(shown + [item]) == LostCount(shown)
    ensures item.Announced? && 0 < item.lost <= |stream| - position && item.newline == (position > 0) ==>
      Tiles(shown + [item], stream, position + item.lost) && LostCount(shown + [item]) == LostCount(shown) + item.lost
  {
    var next := shown + [item];
    assert next[..|next| - 1] == shown;
  }

  lemma ReceivedAppend(shown: seq<Shown>, item: Shown)
    ensures ReceivedBytes(shown + [item]) == ReceivedBytes(shown) + (if item.Received? then item.chunk else [])
    ensures LostCount(shown + [item]) == LostCount(shown) + (if item.Announced? then item.lost else 0)
  {
    assert (shown + [item])[..|shown|] == shown;
  }

  /** Chunks shown one after the other, as the inner loop of the client does. */
  method ShowChunks(shown: seq<Shown>, ghost stream: seq<byte>, position: nat, pieces: seq<seq<byte>>, ghost oldest: nat)
    returns (now: seq<Shown>, count: nat)
    requires Tiles(shown, stream, position) && Slice(stream, position, Concat(pieces))
    requires AnnouncesOnlyLost(shown, position, oldest)
    ensures count == |Concat(pieces)| && Tiles(now, stream, position + count) && LostCount(now) == LostCount(shown)
    ensures AnnouncesOnlyLost(now, position + count, oldest) && ReceivedBytes(now) == ReceivedBytes(shown) + Concat(pieces)
  {
    hide Slice, Tiles, AnnouncesOnlyLost, ReceivedBytes, LostCount;
    now, count := shown, 0;
    var i := 0;
    assert pieces[..0] == [] && pieces[0..] == pieces;
    while i < |pieces|
      invariant 0 <= i <= |pieces|
      invariant count + |Concat(pieces[i..])| == |Concat(pieces)|
      invariant Slice(stream, position + count, Concat(pieces[i..]))
      invariant Tiles(now, stream, position + count) && LostCount(now) == LostCount(shown)
      invariant AnnouncesOnlyLost(now, position + count, oldest)
      invariant ReceivedBytes(now) + Concat(pieces[i..]) == ReceivedBytes(shown) + Concat(pieces)
    {
      var chunk := pieces[i];
      assert Concat(pieces[i..]) == chunk + Concat(pieces[i + 1..]);
      SliceSplits(stream, position + count, chunk, Concat(pieces[i + 1..]));
      TilesAppend(now, stream, position + count, Received(chunk));
      OnlyLostAppend(now, position + count, oldest, Received(chunk));
      ReceivedAppend(now, Received(chunk));
      ghost var received, later := ReceivedBytes(now), Concat(pieces[i + 1..]);
      assert received + (chunk + later) == (received + chunk) + later;
      count := count + |chunk|;
      now := now + [Received(chunk)];
      i := i + 1;
    }
  }

  /** The position a client has reached after these responses: the end of the last content. */
  function Reached(responses: seq<Response>): nat {
    if responses == [] then 0
    else
      var last := responses[|responses| - 1];
      if last.Ok? then last.position + |last.body| else Reached(responses[..|responses| - 1])
  }

  /** How the client takes in one response with content. */
  method Show(shown: seq<Shown>, begin: nat, ghost s: State, position: nat, body: seq<byte>, arrive: seq<byte> -> seq<seq<byte>>)
    returns (now: seq<Shown>, next: nat)
    requires Tiles(shown, s.stream, begin) && Honest(Ok(position, body), begin, s)
    requires AnnouncesOnlyLost(shown, begin, Oldest(s.cap, |s.stream|))
    requires forall text :: Concat(arrive(text)) == text
    ensures begin < next == position + |body| <= |s.stream| && Tiles(now, s.stream, next)
    ensures AnnouncesOnlyLost(now, next, Oldest(s.cap, |s.stream|))
    ensures ReceivedBytes(now) == ReceivedBytes(shown) + body && LostCount(now) == LostCount(shown) + (position - begin)
  {
    hide Tiles, AnnouncesOnlyLost, ReceivedBytes, LostCount;
    FrameRoundTrip(position, body);
    var header, pieces := YieldContent(arrive(Framed(position, body)));
    var rBegin := header.n;
    now := shown;
    if rBegin > begin {
      TilesAppend(shown, s.stream, begin, Announced(begin > 0, rBegin - begin));
      OnlyLostAppend(shown, begin, Oldest(s.cap, |s.stream|), Announced(begin > 0, rBegin - begin));
      ReceivedAppend(shown, Announced(begin > 0, rBegin - begin));
      now := shown + [Announced(begin > 0, rBegin - begin)];
    }
    assert ReceivedBytes(shown) + [] == ReceivedBytes(shown);
    var rCount;
    now, rCount := ShowChunks(now, s.stream, rBegin, pieces, Oldest(s.cap, |s.stream|));
    next := rBegin + rCount;
  }

  /** Everything the client relies on between two polls. */
  ghost predicate Account(shown: seq<Shown>, begin: nat, closed: bool, s: State) {
    && begin <= |s.stream| && Tiles(shown, s.stream, begin)
    && AnnouncesOnlyLost(shown, begin, Oldest(s.cap, |s.stream|))
    && (closed ==> s.closed && begin == |s.stream|)
  }

  lemma NothingYet(s: State)
    ensures Account([], 0, false, s) && Reached([]) == 0 && Bodies([]) == ReceivedBytes([]) == []
  {
  }

  lemma AccountLater(shown: seq<Shown>, begin: nat, before: State, after: State)
    requires Account(shown, begin, false, before) && Later(before, after)
    ensures Account(shown, begin, false, after)
  {
    TilesLater(shown, before.stream, after.stream, begin);
    OnlyLostLater(shown, begin, Oldest(before.cap, |before.stream|), Oldest(after.cap, |after.stream|));
  }

  lemma AccountEnds(shown: seq<Shown>, begin: nat, closed: bool, s: State)
    requires Account(shown, begin, closed, s)
    ensures begin <= |s.stream| && (closed ==> begin == |s.stream|)
  {
  }

  lemma StaysClosed(before: State, after: State)
    requires Later(before, after)
    ensures |before.stream| <= |after.stream| && (before.closed ==> after.closed && after.stream == before.stream)
  {
  }

  lemma ReachedBy(responses: seq<Response>, next: Response)
    ensures Reached(responses + [next]) == if next.Ok? then next.position + |next.body| else Reached(responses)
  {
    assert (responses + [next])[..|responses|] == responses;
  }

  /** Showing something does not touch the buffer. */
  method ShowBeside(buffer: OutputBuffer, history: seq<Event>, shown: seq<Shown>, begin: nat, position: nat, body: seq<byte>, arrive: seq<byte> -> seq<seq<byte>>, ghost rest: nat, ghost w: World)
    returns (now: seq<Shown>, next: nat)
    requires Ready(buffer, history, rest) && w == Calls(buffer, history) && Honest(Ok(position, body), begin, buffer.View())
    requires Account(shown, begin, false, buffer.View())
    requires forall text :: Concat(arrive(text)) == text
    ensures Ready(buffer, history, rest) && Account(now, next, false, buffer.View()) && begin < next == position + |body|
    ensures ReceivedBytes(now) == ReceivedBytes(shown) + body && LostCount(now) == LostCount(shown) + (position - begin)
  {
    hide ReceivedBytes, LostCount, Calls, Lawful, AllDelivered, Sound, OutputBuffer.Valid, Tiles, AnnouncesOnlyLost, Honest;
    now, next := Show(shown, begin, buffer.View(), position, body, arrive);
    assert AllDelivered(buffer, w);
  }

  /** What the response to a poll is worth: without content only if there was nothing for the client
      when it asked, and otherwise from its own position or from the oldest byte kept then. */
  ghost predicate Useful(response: Response, begin: nat, before: State, plan: Plan) {
    && (response.NoContent? <==> InVain(before, begin, plan))
    && (response.NoContent? ==> NothingFor(before, begin))
    && (response.Gone? <==> IsOver(before, begin, plan))
    && (response.Ok? ==> response.position == Max(begin, Oldest(before.cap, |before.stream|)))
  }

  lemma AnswersAreUseful(s: State, from: nat, plan: Plan, size: nat, response: Response, first: nat)
    requires Answers(s, from, plan, size, response, first)
    ensures Useful(response, from, s, plan)
  {
  }

  /** What the client shows of a response: all its bytes, and a loss exactly of the positions skipped. */
  ghost predicate Taken(shown: seq<Shown>, now: seq<Shown>, begin: nat, response: Response) {
    if response.Ok? then
      && ReceivedBytes(now) == ReceivedBytes(shown) + response.body
      && LostCount(now) == LostCount(shown) + (response.position - begin)
    else now == shown
  }

  /** One poll: the request, and what the client makes of the response. */
  method PollOnce(buffer: OutputBuffer, history: seq<Event>, shown: seq<Shown>, begin: nat, poll: Poll, requestBufferSize: nat, ghost rest: nat)
    returns (now: seq<Shown>, next: nat, closed: bool, response: Response, later: seq<Event>)
    requires Ready(buffer, history, poll.plan.Total() + rest) && requestBufferSize >= 1
    requires Account(shown, begin, false, buffer.View())
    requires forall text :: Concat(poll.arrive(text)) == text
    modifies Reach(buffer, Calls(buffer, history))
    ensures Ready(buffer, later, rest) && Onward(buffer, history, later)
    ensures Account(now, next, closed, buffer.View())
    ensures Useful(response, begin, old(buffer.View()), poll.plan) && Taken(shown, now, begin, response)
    ensures closed == response.Gone? && next == if response.Ok? then response.position + |response.body| else begin
    ensures response.Ok? ==> next > begin
    ensures response.NoContent? ==> !old(buffer.closed)
  {
    hide Unavailable, Ready, Calls, OutputBuffer.Valid, Tiles, Confined, AnnouncesOnlyLost, ReceivedBytes, LostCount, Answers, Leaves, StopsRightly, InVain, IsOver;
    ReadyFits(buffer, history, poll.plan.Total() + rest);
    ghost var before := buffer.View();
    ghost var first, used;
    response, later, first, used := HandleRequest(buffer, history, begin, 0, requestBufferSize, poll.plan, rest);
    assert TranslateBegin(begin, |before.stream|) == begin;
    AnswersAreUseful(before, begin, poll.plan, requestBufferSize, response, first);
    AccountLater(shown, begin, before, buffer.View());
    now, next, closed := shown, begin, false;
    match response {
      case Gone => closed := true;
      case NoContent =>
      case Ok(position, body) => now, next := ShowBeside(buffer, later, shown, begin, position, body, poll.arrive, rest, Calls(buffer, later));
    }
  }

  /** The bytes that came with these responses. */
  function Bodies(responses: seq<Response>): seq<byte> {
    if responses == [] then []
    else
      var last := responses[|responses| - 1];
      Bodies(responses[..|responses| - 1]) + (if last.Ok? then last.body else [])
  }

  lemma BodiesAppend(responses: seq<Response>, next: Response)
    ensures Bodies(responses + [next]) == Bodies(responses) + (if next.Ok? then next.body else [])
  {
    assert (responses + [next])[..|responses|] == responses;
  }

  /** The client's `main`, over any number of polls of a buffer that others go on writing to. What
      it shows always tiles the stream up to the position it has reached, it shows every byte it gets,
      it announces as lost only positions that the buffer no longer keeps, and it stops only when the
      stream is complete and every position of it is accounted for. After one poll for each byte that
      was there it has reached them all, and if the buffer is closed, one more makes it stop. */
  method Follow(buffer: OutputBuffer, history: seq<Event>, polls: seq<Poll>, requestBufferSize: nat)
    returns (shown: seq<Shown>, begin: nat, closed: bool, ghost responses: seq<Response>, later: seq<Event>)
    requires Ready(buffer, history, PollsTotal(polls)) && requestBufferSize >= 1
    requires forall i, text :: 0 <= i < |polls| ==> Concat(polls[i].arrive(text)) == text
    modifies Reach(buffer, Calls(buffer, history))
    ensures Ready(buffer, later, 0) && Onward(buffer, history, later)
    ensures Account(shown, begin, closed, buffer.View())
    ensures begin == Reached(responses) && closed == (Gone in responses) && (closed || |responses| == |polls|)
    ensures ReceivedBytes(shown) == Bodies(responses)
    ensures |polls| >= |old(buffer.stream)| ==> begin >= |old(buffer.stream)|
    ensures old(buffer.closed) && |polls| > |old(buffer.stream)| ==> closed
  {
    hide Account, Reached, Ready, Calls, OutputBuffer.Valid, Later, ReceivedBytes, LostCount, Bodies, InVain, IsOver;
    shown, begin, closed, responses, later := [], 0, false, [], history;
    var i := 0;
    assert polls[0..] == polls;
    NothingYet(buffer.View());
    LaterItself(buffer.View());
    while !closed && i < |polls|
      invariant 0 <= i <= |polls|
      invariant Ready(buffer, later, PollsTotal(polls[i..])) && Onward(buffer, history, later)
      invariant Account(shown, begin, closed, buffer.View())
      invariant begin == Reached(responses) && closed == (Gone in responses) && |responses| == i
      invariant ReceivedBytes(shown) == Bodies(responses)
      invariant |old(buffer.stream)| <= |buffer.stream|
      invariant old(buffer.closed) ==> buffer.closed && buffer.stream == old(buffer.stream)
      invariant old(buffer.closed) && !closed ==> i <= begin
      invariant i <= begin || |old(buffer.stream)| <= begin
    {
      assert polls[i..][1..] == polls[i + 1..];
      ghost var before, seen := buffer.View(), shown;
      var response;
      shown, begin, closed, response, later := PollOnce(buffer, later, shown, begin, polls[i], requestBufferSize, PollsTotal(polls[i + 1..]));
      LaterStill(old(buffer.View()), before, buffer.View());
      StaysClosed(old(buffer.View()), buffer.View());
      AccountEnds(shown, begin, closed, buffer.View());
      ghost var earlier := responses;
      responses := responses + [response];
      ReachedBy(earlier, response);
      BodiesAppend(earlier, response);
      i := i + 1;
    }
    ReadyForLess(buffer, later, PollsTotal(polls[i..]), 0);
    AccountEnds(shown, begin, closed, buffer.View());
  }

  /** When the client has been told that the output is over, it has received or announced every
      single byte of it; and if the buffer could keep it all, it has received it all. */
  lemma NothingUnaccounted(shown: seq<Shown>, begin: nat, closed: bool, s: State)
    requires Account(shown, begin, closed, s)
    ensures |ReceivedBytes(shown)| + LostCount(shown) == begin && LostCount(shown) <= Oldest(s.cap, |s.stream|)
    ensures closed ==> |ReceivedBytes(shown)| + LostCount(shown) == |s.stream|
    ensures closed && |s.stream| <= s.cap ==> ReceivedBytes(shown) == s.stream
  {
    TilesAddUp(shown, s.stream, begin);
    OnlyLostBounds(shown, s.stream, begin, Oldest(s.cap, |s.stream|));
  }
}
