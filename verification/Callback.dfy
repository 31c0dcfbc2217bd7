/** Posting events to the callback API: retries with growing pauses, and the suppression of
    documents that have been posted already. */
module Callback {
  import opened Bytes

  const TWO_32: int := 0x1_0000_0000

  // ---------- Retrying ----------

  /** The pause before the retry numbered `k`, from 0, as a mathematical number. */
  function Pause(k: nat): nat {
    if k == 0 then 5 else if k == 1 then 8 else Pause(k - 2) + Pause(k - 1)
  }

  /** A number as 32-bit arithmetic leaves it. */
  function Wrap32(x: nat): nat {
    x % TWO_32
  }

  /** Does the attempt numbered `n`, from 0, take place if all before it fail? The loop counts them
      in 32 bits, and goes on while the counter is within the limit. */
  ghost predicate Tries(maxRetry: nat, n: nat) {
    forall j :: 0 <= j <= n ==> Wrap32(j) <= maxRetry
  }

  /** Does a call that has made `n` attempts, only the last of which can have succeeded, return? */
  ghost predicate EndsAfter(maxRetry: nat, succeeds: nat -> bool, n: nat) {
    n > 0 && Tries(maxRetry, n - 1) && (succeeds(n - 1) || !Tries(maxRetry, n))
  }

  /** How often the counter has started again by the attempt numbered `n`. */
  function Laps(n: nat): nat {
    n / TWO_32
  }

  /** _postEvent, for a configured callback, for every call that returns: `succeeds` tells how each
      attempt goes. It stops at the first success, or where the counter runs out; it pauses after
      every failure but those at which the counter stands at its limit. */
  method PostEvent(maxRetry: nat, succeeds: nat -> bool) returns (attempts: nat, pauses: seq<nat>)
    requires maxRetry < TWO_32 && exists n: nat :: EndsAfter(maxRetry, succeeds, n)
    ensures EndsAfter(maxRetry, succeeds, attempts) && forall j :: 0 <= j < attempts - 1 ==> !succeeds(j)
    ensures |pauses| == (attempts - 1) - Laps(attempts - 1)
    ensures forall k :: 0 <= k < |pauses| ==> pauses[k] == Wrap32(Pause(k))
  {
    hide Wrap32, Pause, Laps, Tries, EndsAfter;
    SmallFit();
    ghost var last: nat :| EndsAfter(maxRetry, succeeds, last);
    var sleepTime, nextSleepTime := 5, 8;
    attempts, pauses := 0, [];
    var i := 0;
    CountsFromZero();
    while i <= maxRetry
      invariant i == Wrap32(attempts) && (attempts > 0 ==> Tries(maxRetry, attempts - 1))
      invariant i > maxRetry ==> attempts > 0
      invariant forall j :: 0 <= j < attempts ==> !succeeds(j)
      invariant |pauses| == if i <= maxRetry then attempts - Laps(attempts) else (attempts - 1) - Laps(attempts - 1)
      invariant forall k :: 0 <= k < |pauses| ==> pauses[k] == Wrap32(Pause(k))
      invariant sleepTime == Wrap32(Pause(|pauses|)) && nextSleepTime == Wrap32(Pause(|pauses| + 1))
      decreases last - attempts
    {
      AttemptTakesPlace(maxRetry, succeeds, last, attempts);
      CountsOn(maxRetry, attempts);
      attempts := attempts + 1;
      if succeeds(attempts - 1) { return; }
      if i < maxRetry {
        PausesGoOn(|pauses|);
        pauses := pauses + [sleepTime];
        var nextNextSleepTime := Wrap32(sleepTime + nextSleepTime);
        sleepTime := nextSleepTime;
        nextSleepTime := nextNextSleepTime;
      }
      i := Wrap32(i + 1);
    }
    LoopRunsOut(maxRetry, succeeds, attempts);
  }

  lemma CountsFromZero()
    ensures Wrap32(0) == 0 && Laps(0) == 0
  {
  }

  /** How the counter goes on from the attempt numbered `n`: at its limit it either stops the loop,
      or, if the limit is the largest 32-bit number, starts again. */
  lemma CountsOn(maxRetry: nat, n: nat)
    requires maxRetry < TWO_32 && Wrap32(n) <= maxRetry
    ensures Wrap32(n + 1) == Wrap32(Wrap32(n) + 1)
    ensures Wrap32(n) == maxRetry && maxRetry < TWO_32 - 1 ==> Wrap32(n + 1) > maxRetry && Laps(n + 1) == Laps(n)
    ensures Wrap32(n) == maxRetry == TWO_32 - 1 ==> Wrap32(n + 1) == 0 && Laps(n + 1) == Laps(n) + 1
    ensures Wrap32(n) < maxRetry ==> Wrap32(n + 1) <= maxRetry && Laps(n + 1) == Laps(n)
  {
  }

  lemma AttemptTakesPlace(maxRetry: nat, succeeds: nat -> bool, last: nat, n: nat)
    requires Wrap32(n) <= maxRetry && (n > 0 ==> Tries(maxRetry, n - 1))
    requires EndsAfter(maxRetry, succeeds, last) && forall j :: 0 <= j < n ==> !succeeds(j)
    ensures Tries(maxRetry, n) && n < last && (succeeds(n) ==> EndsAfter(maxRetry, succeeds, n + 1))
  {
    hide Wrap32;
    assert Tries(maxRetry, n);
  }

  lemma LoopRunsOut(maxRetry: nat, succeeds: nat -> bool, n: nat)
    requires n > 0 && Tries(maxRetry, n - 1) && Wrap32(n) > maxRetry
    ensures EndsAfter(maxRetry, succeeds, n)
  {
  }

  /** The next pause is the sum of the last two, in 32-bit arithmetic too. */
  lemma PausesGoOn(k: nat)
    ensures Wrap32(Wrap32(Pause(k)) + Wrap32(Pause(k + 1))) == Wrap32(Pause(k + 2))
  {
    hide Wrap32, Pause;
    SumsWrap(Pause(k), Pause(k + 1));
    PauseAfter(k);
  }

  /** While every attempt fails, at most `maxRetry` + 1 are made exactly if the limit is not the
      largest 32-bit number. With that one, which the environment may set, the loop never ends. */
  lemma RetriesEndIff(maxRetry: nat)
    requires maxRetry < TWO_32
    ensures (forall n: nat :: Tries(maxRetry, n) <==> n <= maxRetry) <==> maxRetry < TWO_32 - 1
    ensures maxRetry == TWO_32 - 1 ==> forall n: nat :: Tries(maxRetry, n)
  {
    if maxRetry < TWO_32 - 1 {
      forall n: nat
        ensures Tries(maxRetry, n) <==> n <= maxRetry
      {
        assert Wrap32(maxRetry + 1) > maxRetry;
      }
    } else {
      assert Tries(maxRetry, TWO_32);
    }
  }

  /** So a call returns exactly if some attempt succeeds or the limit is smaller than that. */
  lemma ReturnsIff(maxRetry: nat, succeeds: nat -> bool)
    requires maxRetry < TWO_32
    ensures (exists n: nat :: EndsAfter(maxRetry, succeeds, n)) <==> maxRetry < TWO_32 - 1 || exists k: nat :: succeeds(k)
  {
    RetriesEndIff(maxRetry);
    if maxRetry < TWO_32 - 1 {
      assert EndsAfter(maxRetry, succeeds, maxRetry + 1);
    } else if k: nat :| succeeds(k) {
      assert EndsAfter(maxRetry, succeeds, k + 1);
    }
  }

  lemma PauseAfter(k: nat)
    ensures Pause(k + 2) == Pause(k) + Pause(k + 1)
  {
  }

  lemma SmallFit()
    ensures Wrap32(Pause(0)) == 5 && Wrap32(Pause(1)) == 8
  {
  }

  lemma SumsWrap(a: nat, b: nat)
    ensures Wrap32(Wrap32(a) + Wrap32(b)) == Wrap32(a + b)
  {
    assert a == TWO_32 * (a / TWO_32) + a % TWO_32;
    assert b == TWO_32 * (b / TWO_32) + b % TWO_32;
  }

  /** The time slept over the first `k` pauses. */
  lemma {:induction false} TotalPause(pauses: seq<nat>)
    requires forall k :: 0 <= k < |pauses| ==> pauses[k] == Pause(k)
    ensures Sum(pauses) == Pause(|pauses| + 1) - 8
  {
    if pauses != [] {
      TotalPause(pauses[..|pauses| - 1]);
    }
  }

  lemma {:induction false} PausesGrow(j: nat, k: nat)
    requires j <= k
    ensures Pause(j) <= Pause(k)
    decreases k - j
  {
    if j < k {
      PausesGrow(j + 1, k);
    }
  }

  /** The pause numbered `k` is what the 32-bit arithmetic makes of it exactly up to the 42nd. */
  lemma PauseFitsIff(k: nat)
    ensures Wrap32(Pause(k)) == Pause(k) <==> k <= 42
  {
    hide Pause;
    PausesAround42();
    if k <= 42 {
      PausesGrow(k, 42);
    } else {
      PausesGrow(43, k);
    }
  }

  lemma TenPausesOn(k: nat)
    ensures Pause(k + 10) == 34 * Pause(k) + 55 * Pause(k + 1)
    ensures Pause(k + 11) == 55 * Pause(k) + 89 * Pause(k + 1)
  {
    hide Pause;
    PauseAfter(k);
    PauseAfter(k + 1);
    PauseAfter(k + 2);
    PauseAfter(k + 3);
    PauseAfter(k + 4);
    PauseAfter(k + 5);
    PauseAfter(k + 6);
    PauseAfter(k + 7);
    PauseAfter(k + 8);
    PauseAfter(k + 9);
  }

  lemma PausesAround42()
    ensures Pause(42) == 2971215073 && Pause(43) == 4807526976
  {
    assert Pause(2) == 13 && Pause(3) == 21;
    hide Pause;
    TenPausesOn(2);
    TenPausesOn(12);
    TenPausesOn(22);
    TenPausesOn(32);
  }

  /** The first pause that wraps, in numbers. */
  lemma FirstWrappedPause()
    ensures Pause(43) == 4807526976 && Wrap32(Pause(43)) == 512559680
  {
    PausesAround42();
    hide Pause;
  }

  /** No value the loop computes wraps, the two it looks ahead included, exactly if at most 41
      retries are allowed; the pauses it takes are right exactly if at most 43 are. */
  lemma ArithmeticExactIff(maxRetry: nat)
    ensures (forall k :: 0 <= k <= maxRetry + 1 ==> Wrap32(Pause(k)) == Pause(k)) <==> maxRetry <= 41
    ensures (forall k :: 0 <= k < maxRetry ==> Wrap32(Pause(k)) == Pause(k)) <==> maxRetry <= 43
  {
    forall k: nat
      ensures Wrap32(Pause(k)) == Pause(k) <==> k <= 42
    {
      PauseFitsIff(k);
    }
    if maxRetry > 41 {
      assert Wrap32(Pause(43)) != Pause(43);
    }
    if maxRetry > 43 {
      assert Wrap32(Pause(43)) != Pause(43);
    }
  }

  // ---------- Suppressing repetitions ----------

  /** A document generated under some tag. */
  datatype Note = Note(tag: string, doc: string)

  /** The documents of one tag, in order. */
  function Of(notes: seq<Note>, tag: string): seq<string> {
    if notes == [] then []
    else Of(notes[..|notes| - 1], tag) + (if notes[|notes| - 1].tag == tag then [notes[|notes| - 1].doc] else [])
  }

  /** A sequence with equal neighbours merged. */
  function Collapsed(docs: seq<string>): seq<string> {
    if |docs| <= 1 then docs
    else
      var before := docs[..|docs| - 1];
      if docs[|docs| - 1] == docs[|docs| - 2] then Collapsed(before) else Collapsed(before) + [docs[|docs| - 1]]
  }

  /** Collapsing keeps the first and the last document, leaves no equal neighbours, and keeps a
      sequence without equal neighbours as it is. */
  lemma {:induction false} CollapsedMeaning(docs: seq<string>)
    ensures docs == [] <==> Collapsed(docs) == []
    ensures docs != [] ==> var c := Collapsed(docs); c[0] == docs[0] && c[|c| - 1] == docs[|docs| - 1]
    ensures forall i :: 0 < i < |Collapsed(docs)| ==> Collapsed(docs)[i - 1] != Collapsed(docs)[i]
    ensures (forall i :: 0 < i < |docs| ==> docs[i - 1] != docs[i]) ==> Collapsed(docs) == docs
  {
    if |docs| > 1 {
      var before := docs[..|docs| - 1];
      CollapsedMeaning(before);
      var c, last := Collapsed(before), docs[|docs| - 1];
      if last == docs[|docs| - 2] {
        assert Collapsed(docs) == c;
      } else {
        assert Collapsed(docs) == c + [last] && c[|c| - 1] != last && before + [last] == docs;
      }
    }
  }

  lemma OfAppend(notes: seq<Note>, note: Note, tag: string)
    ensures Of(notes + [note], tag) == if note.tag == tag then Of(notes, tag) + [note.doc] else Of(notes, tag)
  {
    assert (notes + [note])[..|notes|] == notes;
  }

  lemma CollapsedAppend(docs: seq<string>, doc: string)
    ensures Collapsed(docs + [doc]) ==
      if docs != [] && docs[|docs| - 1] == doc then Collapsed(docs) else Collapsed(docs) + [doc]
  {
    assert (docs + [doc])[..|docs|] == docs;
  }

  /** What a manager has posted and remembers, compared with what it has seen, for one tag: posted
      are the documents seen, repetitions collapsed, and remembered is the last one. */
  ghost predicate UpToDate(seen: seq<Note>, posted: seq<Note>, lastPosted: map<string, string>, tag: string) {
    var docs := Of(seen, tag);
    && Of(posted, tag) == Collapsed(docs)
    && (tag in lastPosted <==> docs != [])
    && (tag in lastPosted ==> lastPosted[tag] == docs[|docs| - 1])
  }

  /** Taking in a note, posting it if it is news, keeps every tag up to date. */
  lemma NoteKeepsUpToDate(seen: seq<Note>, posted: seq<Note>, lastPosted: map<string, string>, note: Note, tag: string)
    requires UpToDate(seen, posted, lastPosted, tag) && UpToDate(seen, posted, lastPosted, note.tag)
    ensures note.tag in lastPosted && lastPosted[note.tag] == note.doc ==>
      UpToDate(seen + [note], posted, lastPosted, tag)
    ensures note.tag !in lastPosted || lastPosted[note.tag] != note.doc ==>
      UpToDate(seen + [note], posted + [note], lastPosted[note.tag := note.doc], tag)
  {
    hide Of, Collapsed;
    OfAppend(seen, note, tag);
    OfAppend(posted, note, tag);
    CollapsedAppend(Of(seen, tag), note.doc);
  }

  class CallbackManager {
    const uri: string
    var lastPosted: map<string, string>
    var posted: seq<Note>        // the events handed to _postEvent, in order
    ghost var seen: seq<Note>    // the notifications received, in order

    ghost predicate Valid()
      reads this
    {
      if uri == "" then posted == [] && lastPosted == map[]
      else forall tag :: UpToDate(seen, posted, lastPosted, tag)
    }

    constructor (uri: string)
      ensures Valid() && this.uri == uri && seen == [] && posted == []
    {
      this.uri := uri;
      lastPosted, posted, seen := map[], [], [];
      new;
      forall tag
        ensures UpToDate(seen, posted, lastPosted, tag)
      {
      }
    }

    /** fileGenerated: posts a document unless it is the one posted last for its tag. */
    method FileGenerated(tag: string, doc: string)
      requires Valid()
      modifies this
      ensures Valid() && seen == old(seen) + [Note(tag, doc)]
      ensures posted == old(posted) || posted == old(posted) + [Note(tag, doc)]
    {
      ghost var note, before, earlier, table := Note(tag, doc), seen, posted, lastPosted;
      seen := seen + [note];
      if uri != "" {
        if tag !in lastPosted || lastPosted[tag] != doc {
          posted := posted + [Note(tag, doc)];
          lastPosted := lastPosted[tag := doc];
        }
        forall t
          ensures UpToDate(seen, posted, lastPosted, t)
        {
          assert UpToDate(before, earlier, table, t) && UpToDate(before, earlier, table, tag);
          NoteKeepsUpToDate(before, earlier, table, note, t);
        }
      }
    }
  }

  /** However the tags are interleaved: what has been posted for a tag ends with the last document
      seen for it, and never repeats one twice in a row. */
  lemma LastPostedIsLastSeen(m: CallbackManager, tag: string)
    requires m.Valid() && m.uri != "" && Of(m.seen, tag) != []
    ensures var p := Of(m.posted, tag); var docs := Of(m.seen, tag);
      && p != [] && p[|p| - 1] == docs[|docs| - 1] && p[0] == docs[0]
      && forall i :: 0 < i < |p| ==> p[i - 1] != p[i]
  {
    assert UpToDate(m.seen, m.posted, m.lastPosted, tag);
    CollapsedMeaning(Of(m.seen, tag));
  }
}