/** The body of a poll response: the position in hexadecimal, a newline, and the output; and how
    the client takes it apart, in whatever chunks it arrives. */
module Frame {
  import opened Bytes

  const NEWLINE: byte := 10

  // ---------- The server's side ----------

  function HexDigit(d: nat): byte
    requires d < 16
  {
    if d < 10 then (48 + d) as byte else (87 + d) as byte
  }

  function Hex(n: nat): seq<byte> {
    if n < 16 then [HexDigit(n)] else Hex(n / 16) + [HexDigit(n % 16)]
  }

  function Framed(position: nat, body: seq<byte>): seq<byte> {
    Hex(position) + [NEWLINE] + body
  }

  // ---------- The client's side ----------

  /** The first thing the parser yields: the position, an exception, or nothing of the kind. */
  datatype Header = Position(n: nat) | Malformed | Missing

  datatype Option<+T> = None | Some(value: T)

  function DigitValue(b: byte): Option<nat> {
    if 48 <= b <= 57 then Some(b as nat - 48)
    else if 97 <= b <= 102 then Some(b as nat - 87)
    else if 65 <= b <= 70 then Some(b as nat - 55)
    else None
  }

  /** int(s, 16), on plain digits. */
  function ParseHex(s: seq<byte>): Option<nat> {
    if s == [] then None
    else
      var high := if |s| == 1 then Some(0) else ParseHex(s[..|s| - 1]);
      var low := DigitValue(s[|s| - 1]);
      if high.Some? && low.Some? then Some(high.value * 16 + low.value) else None
  }

  /** bytes.find: the first place where `b` occurs, or -1. */
  function Find(s: seq<byte>, b: byte): (i: int)
    ensures -1 <= i < |s|
    ensures i >= 0 ==> s[i] == b && b !in s[..i]
    ensures i == -1 ==> b !in s
  {
    if s == [] then -1
    else if s[0] == b then 0
    else
      var i := Find(s[1..], b);
      if i == -1 then -1
      else
        assert s[..i + 1] == [s[0]] + s[1..][..i];
        i + 1
  }

  lemma {:induction false} FindUnique(s: seq<byte>, b: byte, i: nat)
    requires i < |s| && s[i] == b && b !in s[..i]
    ensures Find(s, b) == i
  {
    if i > 0 {
      assert s[0] == s[..i][0];
      assert s[1..][..i - 1] == s[..i][1..];
      FindUnique(s[1..], b, i - 1);
    }
  }

  /** What the whole text announces, whichever way it is cut. */
  function HeaderOf(text: seq<byte>): Header {
    var pos := Find(text, NEWLINE);
    if pos <= 0 then Missing
    else
      var n := ParseHex(text[..pos]);
      if n.Some? then Position(n.value) else Malformed
  }

  function ContentOf(text: seq<byte>): seq<byte> {
    var pos := Find(text, NEWLINE);
    if pos <= 0 then text else text[pos + 1..]
  }

  /** A first line that is complete ends in the same place whatever comes after it. */
  lemma LineStays(text: seq<byte>, rest: seq<byte>, pos: nat)
    requires Find(text, NEWLINE) == pos
    ensures (text + rest)[..pos] == text[..pos] && Find(text + rest, NEWLINE) == pos
    ensures (text + rest)[pos + 1..] == text[pos + 1..] + rest
  {
    hide Find;
    assert (text + rest)[..pos] == text[..pos];
    FindUnique(text + rest, NEWLINE, pos);
  }

  /** Once the first line is complete, later chunks do not change what it announces. */
  lemma HeaderStays(text: seq<byte>, rest: seq<byte>)
    requires Find(text, NEWLINE) > 0
    ensures HeaderOf(text + rest) == HeaderOf(text)
  {
    hide Find, ParseHex;
    LineStays(text, rest, Find(text, NEWLINE));
  }

  lemma ContentGrows(text: seq<byte>, rest: seq<byte>)
    requires Find(text, NEWLINE) > 0
    ensures ContentOf(text + rest) == ContentOf(text) + rest
  {
    hide Find;
    LineStays(text, rest, Find(text, NEWLINE));
  }

  /** The first loop of yield_content: collects chunks up to the first newline. Returns what it
      read beyond the header, and how many chunks it used. */
  method ReadFirstLine(chunks: seq<seq<byte>>) returns (header: Header, rest: seq<byte>, i: nat)
    ensures header == HeaderOf(Concat(chunks)) && i <= |chunks|
    ensures !header.Malformed? ==> rest + Concat(chunks[i..]) == ContentOf(Concat(chunks))
  {
    var firstChunkBuffer: seq<byte> := [];
    i := 0;
    while i < |chunks|
      invariant i <= |chunks|
      invariant firstChunkBuffer == Concat(chunks[..i]) && Find(firstChunkBuffer, NEWLINE) <= 0
    {
      ConcatAppend(chunks[..i], chunks[i]);
      assert chunks[..i + 1] == chunks[..i] + [chunks[i]];
      firstChunkBuffer := firstChunkBuffer + chunks[i];
      i := i + 1;
      var pos := Find(firstChunkBuffer, NEWLINE);
      if pos > 0 {
        ConcatSplit(chunks, i);
        HeaderStays(firstChunkBuffer, Concat(chunks[i..]));
        ContentGrows(firstChunkBuffer, Concat(chunks[i..]));
        var n := ParseHex(firstChunkBuffer[..pos]);
        return if n.None? then Malformed else Position(n.value), firstChunkBuffer[pos + 1..], i;
      }
    }
    assert chunks[..i] == chunks && Concat(chunks[i..]) == [];
    return Missing, firstChunkBuffer, i;
  }

  /** yield_content: the header, then what was read along with it, then all further chunks. */
  method YieldContent(chunks: seq<seq<byte>>) returns (header: Header, pieces: seq<seq<byte>>)
    ensures header == HeaderOf(Concat(chunks))
    ensures !header.Malformed? ==> Concat(pieces) == ContentOf(Concat(chunks))
  {
    hide HeaderOf, ContentOf;
    var firstChunkBuffer, i;
    header, firstChunkBuffer, i := ReadFirstLine(chunks);
    pieces := [];
    if header.Malformed? {
      return;
    }
    ghost var content := ContentOf(Concat(chunks));
    if firstChunkBuffer != [] {
      pieces := [firstChunkBuffer];
    }
    assert Concat(pieces) == firstChunkBuffer;
    while i < |chunks|
      invariant i <= |chunks| && Concat(pieces) + Concat(chunks[i..]) == content
    {
      ConcatAppend(pieces, chunks[i]);
      ghost var later := Concat(chunks[i + 1..]);
      assert Concat(chunks[i..]) == chunks[i] + later;
      assert Concat(pieces) + (chunks[i] + later) == (Concat(pieces) + chunks[i]) + later;
      pieces := pieces + [chunks[i]];
      i := i + 1;
    }
  }

  lemma {:induction false} ConcatSplit(chunks: seq<seq<byte>>, i: nat)
    requires i <= |chunks|
    ensures Concat(chunks) == Concat(chunks[..i]) + Concat(chunks[i..])
  {
    if i > 0 {
      ConcatSplit(chunks[1..], i - 1);
      assert chunks[..i][1..] == chunks[1..][..i - 1];
      assert chunks[i..] == chunks[1..][i - 1..];
    }
  }

  // ---------- Both sides agree ----------

  lemma {:induction false} HexParses(n: nat)
    ensures Hex(n) != [] && ParseHex(Hex(n)) == Some(n) && NEWLINE !in Hex(n)
  {
    if n >= 16 {
      HexParses(n / 16);
      var digits := Hex(n);
      assert digits[..|digits| - 1] == Hex(n / 16);
    }
  }

  /** The client recovers exactly the position and the body the server framed; by the contract of
      `YieldContent` that holds for every way of cutting the frame into chunks. */
  lemma FrameRoundTrip(position: nat, body: seq<byte>)
    ensures HeaderOf(Framed(position, body)) == Position(position)
    ensures ContentOf(Framed(position, body)) == body
  {
    HexParses(position);
    var digits, text := Hex(position), Framed(position, body);
    assert text == digits + ([NEWLINE] + body);
    assert text[|digits|] == NEWLINE;
    assert text[..|digits|] == digits && text[|digits| + 1..] == body;
    FindUnique(text, NEWLINE, |digits|);
  }

  // ---------- What the bytes are ----------

  /** The header is the text before the first byte 10, if there is any text before it, and the content
      is all that comes after that byte. */
  lemma HeaderEndsAtNewline(text: seq<byte>, i: nat)
    requires 0 < i < |text| && text[i] == 10 && 10 !in text[..i]
    ensures ContentOf(text) == text[i + 1..]
    ensures HeaderOf(text) == match ParseHex(text[..i]) case Some(n) => Position(n) case None => Malformed
  {
    FindUnique(text, 10, i);
  }

  /** Without a byte 10, or with one at the very start, there is no header, and all is content. */
  lemma NoHeader(text: seq<byte>)
    requires 10 !in text || text[0] == 10
    ensures HeaderOf(text) == Missing && ContentOf(text) == text
  {
  }

  lemma {:induction false} HexDigits(n: nat)
    ensures forall j :: 0 <= j < |Hex(n)| ==> 48 <= Hex(n)[j] <= 57 || 97 <= Hex(n)[j] <= 102
    ensures Hex(n) != [] && (n > 0 ==> Hex(n)[0] != 48) && (n == 0 ==> Hex(n) == [48])
    decreases n
  {
    if n >= 16 {
      HexDigits(n / 16);
    }
  }

  /** A frame starts with the position in hexadecimal digits, in lower case and without leading zeros,
      followed by a byte 10 and the body. */
  lemma FrameShape(position: nat, body: seq<byte>)
    ensures var text, n := Framed(position, body), |Hex(position)|;
      && 0 < n < |text| && text[n] == 10 && text[n + 1..] == body
      && (forall j :: 0 <= j < n ==> 48 <= text[j] <= 57 || 97 <= text[j] <= 102)
      && (position > 0 ==> text[0] != 48) && (position == 0 ==> text[..n] == [48])
  {
    HexDigits(position);
    var text, n := Framed(position, body), |Hex(position)|;
    assert text == Hex(position) + ([NEWLINE] + body);
    assert text[..n] == Hex(position) && text[n + 1..] == body;
  }

  /** The digits are worth what they are worth in base 16. */
  lemma HexIsBase16(n: nat, d: nat)
    requires d < 16
    ensures Hex(16 * n + d) == (if n == 0 then [] else Hex(n)) + [if d < 10 then (48 + d) as byte else (87 + d) as byte]
  {
    assert (16 * n + d) / 16 == n && (16 * n + d) % 16 == d;
  }

  /** "1f", a newline, and "abc". */
  lemma FrameExample()
    ensures Framed(31, [97, 98, 99]) == [49, 102, 10, 97, 98, 99]
    ensures HeaderOf([49, 102, 10, 97, 98, 99]) == Position(31) && ContentOf([49, 102, 10, 97, 98, 99]) == [97, 98, 99]
  {
    HexIsBase16(0, 1);
    HexIsBase16(1, 15);
    FrameRoundTrip(31, [97, 98, 99]);
  }

  /** "1F", and "x", each followed by a newline. */
  lemma OtherLines()
    ensures HeaderOf([49, 70, 10]) == Position(31) && HeaderOf([120, 10]) == Malformed
  {
    var upper: seq<byte>, other: seq<byte> := [49, 70, 10], [120, 10];
    assert upper[..2] == [49, 70] && [49, 70][..1] == [49] && other[..1] == [120];
    assert ParseHex([49]) == Some(1) && ParseHex([49, 70]) == Some(31) && ParseHex([120]) == None;
    HeaderEndsAtNewline(upper, 2);
    HeaderEndsAtNewline(other, 1);
  }
}
