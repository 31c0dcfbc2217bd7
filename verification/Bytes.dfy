/** Bytes, byte strings and the few library routines the executor builds on. */
module Bytes {

  newtype byte = x: int | 0 <= x < 256

  const TWO_63: int := 0x8000_0000_0000_0000
  const TWO_64: int := 0x1_0000_0000_0000_0000

  type size64 = x: nat | x < TWO_64
  type ssize64 = x: int | -TWO_63 <= x < TWO_63

  function Min(a: int, b: int): int {
    if a <= b then a else b
  }

  function Max(a: int, b: int): int {
    if a <= b then b else a
  }

  function Sum(s: seq<nat>): nat {
    if s == [] then 0 else Sum(s[..|s| - 1]) + s[|s| - 1]
  }

  /** The value that arithmetic on a 64-bit size_t leaves behind. */
  function Wrap64(x: int): size64 {
    x % TWO_64
  }

  /** A size_t counter after `++` and after `--`. */
  function Inc64(x: size64): size64 {
    if x == TWO_64 - 1 then 0 else x + 1
  }

  function Dec64(x: size64): size64 {
    if x == 0 then TWO_64 - 1 else x - 1
  }

  /** A size_t counter after `n` times `--`. */
  function Down64(x: size64, n: nat): size64 {
    if n == 0 then x else Dec64(Down64(x, n - 1))
  }

  lemma WrapIs(x: int, rounds: int, rest: size64)
    requires x == rounds * TWO_64 + rest
    ensures Wrap64(x) == rest
  {
  }

  lemma WrapTwice(x: int, d: int)
    ensures Wrap64(Wrap64(x) + d) == Wrap64(x + d)
  {
    assert x == TWO_64 * (x / TWO_64) + Wrap64(x);
  }

  /** The counters compute modulo 2^64. */
  lemma CountersWrap(x: int)
    ensures Inc64(Wrap64(x)) == Wrap64(x + 1)
    ensures Dec64(Wrap64(x)) == Wrap64(x - 1)
  {
    WrapTwice(x, 1);
    WrapTwice(x, -1);
  }

  lemma {:induction false} DownWraps(x: int, n: nat)
    ensures Down64(Wrap64(x), n) == Wrap64(x - n)
  {
    if n > 0 {
      DownWraps(x, n - 1);
      CountersWrap(x - (n - 1));
    }
  }

  /** Reinterprets a 64-bit pattern as a signed ssize_t. */
  function AsSigned64(x: size64): int {
    if x < TWO_63 then x else x - TWO_64
  }

  /** Joins byte strings in order. */
  function Concat(chunks: seq<seq<byte>>): seq<byte> {
    if chunks == [] then [] else chunks[0] + Concat(chunks[1..])
  }

  lemma {:induction false} ConcatAppend(chunks: seq<seq<byte>>, last: seq<byte>)
    ensures Concat(chunks + [last]) == Concat(chunks) + last
  {
    if chunks == [] {
      assert chunks + [last] == [last];
      assert Concat([last]) == [last][0] + Concat([last][1..]);
    } else {
      ConcatAppend(chunks[1..], last);
      assert (chunks + [last])[1..] == chunks[1..] + [last];
    }
  }

  /** Copies `src` over the cells of `dst` that start at `at`. */
  method Memcpy(dst: array<byte>, at: nat, src: seq<byte>)
    requires at + |src| <= dst.Length
    modifies dst
    ensures dst[..] == old(dst[..])[..at] + src + old(dst[..])[at + |src|..]
  {
    forall i | 0 <= i < |src| {
      dst[at + i] := src[i];
    }
  }
}
