/** What a reader may learn from the buffer, in terms of the whole stream ever written. */
module StreamSpec {
  import opened Bytes

  /** The answer handed back to a reader; the bytes themselves go to the reader's target. */
  datatype ReadResult = ReadResult(isClosed: bool, isTimeout: bool, begin: nat, count: nat)

  const CLOSED := ReadResult(true, false, 0, 0)
  const TIMEOUT := ReadResult(false, true, 0, 0)

  function DataAt(begin: nat, count: nat): ReadResult {
    ReadResult(false, false, begin, count)
  }

  /** The number of bytes a buffer that may keep `cap` bytes still holds of `total`. */
  function Retained(cap: nat, total: nat): nat {
    Min(cap, total)
  }

  /** The oldest position that can still be read. */
  function Oldest(cap: nat, total: nat): nat {
    total - Retained(cap, total)
  }

  /** The answer to a read at a translated position: it depends on nothing but the stream,
      the retention limit and the closed flag. */
  function Answer(cap: nat, stream: seq<byte>, closed: bool, begin: nat, count: nat): ReadResult {
    if begin < |stream| then
      var start := Max(begin, Oldest(cap, |stream|));
      DataAt(start, Min(count, |stream| - start))
    else if closed then CLOSED
    else TIMEOUT
  }

  /** Does the array content `target` show exactly the bytes that `r` announces? */
  ghost predicate Shows(target: seq<byte>, stream: seq<byte>, r: ReadResult) {
    r.begin + r.count <= |stream| && r.count <= |target| &&
    target[..r.count] == stream[r.begin..r.begin + r.count]
  }

  /** translateNegativeBegin, with the conversions between ssize_t and size_t spelled out. */
  function TranslateBegin(begin: int, written: nat): (r: nat)
    requires -TWO_63 <= begin < TWO_63 && written < TWO_64
    ensures begin >= 0 ==> r == begin
  {
    var sum := if begin < 0 then AsSigned64(Wrap64(Wrap64(begin) + written)) else begin;
    if sum < 0 then 0 else sum
  }

  /** A negative position counts from the end of the stream, and the oldest position is 0,
      exactly when the sum still fits a signed 64-bit integer. */
  lemma NegativeBeginCountsFromEnd(begin: int, written: nat)
    requires -TWO_63 <= begin < 0 && written < TWO_64
    ensures TranslateBegin(begin, written) == Max(0, begin + written) <==> begin + written < TWO_63
  {
    assert Wrap64(begin) == begin + TWO_64;
    if begin + written < 0 {
      assert Wrap64(Wrap64(begin) + written) == begin + written + TWO_64;
    } else {
      assert Wrap64(Wrap64(begin) + written) == begin + written;
    }
  }

  /** The numbers of the platform: -1 as a size_t, and back; the largest and the smallest ssize_t. */
  lemma TwosComplement()
    ensures Wrap64(-1) == 18446744073709551615 && Wrap64(18446744073709551616) == 0
    ensures AsSigned64(18446744073709551615) == -1
    ensures AsSigned64(9223372036854775807) == 9223372036854775807
    ensures AsSigned64(9223372036854775808) == -9223372036854775808
  {
  }

  /** Every data answer starts at the requested position, or at the oldest byte still kept if
      that is later; it brings at least one byte whenever at least one was asked for. The other
      two answers occur exactly when the position has not been written yet. */
  lemma AnswerMeaning(cap: nat, stream: seq<byte>, closed: bool, begin: nat, count: nat)
    requires cap >= 1
    ensures var r := Answer(cap, stream, closed, begin, count);
      && ((r.isClosed || r.isTimeout) <==> begin >= |stream|)
      && (r.isClosed <==> begin >= |stream| && closed)
      && (begin < |stream| ==>
            && r.begin == Max(begin, Oldest(cap, |stream|)) < |stream|
            && r.count <= count && r.begin + r.count <= |stream|
            && (count > 0 ==> r.count > 0)
            && (r.count < count ==> r.begin + r.count == |stream|))
  {
  }
}
