/** How the ring grows over a run of writes, what that costs, and what is lost. */
module Growth {
  import opened Bytes
  import opened Ring

  /** The bookkeeping of a ring that may grow to `limit`: its current capacity, size and head, the
      bytes it was given in total, those moved while growing, and those lost. */
  datatype Books = Books(limit: nat, capacity: nat, size: nat, head: nat, total: nat, copied: nat, discarded: nat) {

    /** Until a ring has its full capacity nothing is lost and nothing wraps, and all the copying
        ever done while growing stays below twice the limit. */
    ghost predicate Balanced() {
      && size <= capacity <= limit
      && size == Min(limit, total) && discarded == total - size
      && (total <= limit ==> head == 0)
      && (capacity < limit ==> size == total && copied <= capacity)
      && (copied == 0 || copied < 2 * limit)
    }

    /** The capacity after a write of `count` bytes has considered growing. */
    function Grown(count: nat): nat {
      if size + count > capacity && capacity < limit then
        Max(capacity, Min(Max(capacity * 2, size + count), limit))
      else capacity
    }

    function After(count: nat): Books {
      var capacity' := Grown(count);
      var size' := Min(capacity', size + count);
      var lost := size + count - size';
      var start := if capacity' > capacity then 0 else head;
      Books(limit, capacity', size',
            if lost == 0 || count >= capacity' then start else Remainder(start + lost, capacity'),
            total + count,
            if capacity' > capacity then copied + size else copied,
            discarded + lost)
    }
  }

  function NewBooks(limit: nat, initialCapacity: nat): Books {
    Books(limit, Min(initialCapacity, limit), 0, 0, 0, 0, 0)
  }

  lemma NewIsBalanced(limit: nat, initialCapacity: nat)
    ensures NewBooks(limit, initialCapacity).Balanced()
  {
  }

  /** A write finds a cell to compute with exactly if the limit allows one, and there is one already
      or something to grow for. With a limit of 0 no write does. */
  lemma CellsIff(b: Books, count: nat)
    requires b.Balanced()
    ensures b.Grown(count) >= 1 <==> b.limit >= 1 && (b.capacity >= 1 || count > 0)
    ensures b.limit == 0 ==> b.Grown(count) == 0
  {
  }

  /** One write keeps the books, whatever its size. */
  lemma WriteBalances(b: Books, count: nat)
    requires b.Balanced()
    ensures var after := b.After(count);
      && b.size <= b.total && after.Balanced() && after.capacity >= b.capacity && after.total == b.total + count
      && after.discarded >= b.discarded && b.size + count == after.size + (after.discarded - b.discarded)
  {
    hide Remainder;
  }

  function AfterAll(b: Books, counts: seq<nat>): Books {
    if counts == [] then b else AfterAll(b, counts[..|counts| - 1]).After(counts[|counts| - 1])
  }

  /** Amortised growth: after any writes of any sizes, the capacity is within the limit; what is
      kept is the limit or everything; nothing has been lost and the ring starts at cell 0 while it
      has not reached its full capacity; and all expansions together have moved fewer than twice
      as many bytes as the limit. */
  lemma {:induction false} GrowthIsAmortised(limit: nat, initialCapacity: nat, counts: seq<nat>)
    ensures var b := AfterAll(NewBooks(limit, initialCapacity), counts);
      && b.Balanced()
      && b.limit == limit && b.total == Sum(counts) && b.capacity <= limit
      && b.size == Min(limit, Sum(counts)) && b.size + b.discarded == Sum(counts)
      && (b.capacity < limit ==> b.discarded == 0 && b.head == 0)
      && (limit > 0 ==> b.copied < 2 * limit)
  {
    if counts != [] {
      GrowthIsAmortised(limit, initialCapacity, counts[..|counts| - 1]);
      WriteBalances(AfterAll(NewBooks(limit, initialCapacity), counts[..|counts| - 1]), counts[|counts| - 1]);
    }
  }
}
