/**
 The command-line client's decoder for chunked response bodies
 (RFC 9112, section 7.1, without chunk extensions).
 */
module Chunked {
  import opened Text

  newtype byte = x: int | 0 <= x < 256

  type Bytes = seq<byte>

  const CR: byte := 13
  const LF: byte := 10
  const CRLF: Bytes := [CR, LF]

  /** One past the largest `usize`. */
  const USIZE_LIMIT := 0x1_0000_0000_0000_0000

  // ---- Hexadecimal sizes --------------------------------------------------

  function HexDigit(b: byte): Option<nat> {
    if 48 <= b <= 57 then Some(b as int - 48)
    else if 65 <= b <= 70 then Some(b as int - 55)
    else if 97 <= b <= 102 then Some(b as int - 87)
    else None
  }

  predicate IsHex(s: Bytes) {
    forall i | 0 <= i < |s| :: HexDigit(s[i]).Some?
  }

  function HexValue(s: Bytes): nat
    requires IsHex(s)
  {
    if s == [] then 0 else 16 * HexValue(s[..|s| - 1]) + HexDigit(s[|s| - 1]).value
  }

  /** `usize::from_str_radix(_, 16)`: an optional plus sign, then at least one digit, without overflow. */
  function ParseSize(s: Bytes): Option<nat> {
    var digits := if s != [] && s[0] == 43 then s[1..] else s;
    if digits != [] && IsHex(digits) && HexValue(digits) < USIZE_LIMIT then Some(HexValue(digits)) else None
  }

  /** The length of the UTF-8 encoded whitespace character that `s` starts with, or 0. */
  function SpaceAtStart(s: Bytes): (n: nat)
    ensures n <= |s|
  {
    if |s| >= 1 && (9 <= s[0] <= 13 || s[0] == 32) then 1
    else if |s| >= 2 && s[0] == 0xC2 && s[1] in {0x85, 0xA0} then 2
    else if |s| >= 3 && WideSpace(s[..3]) then 3
    else 0
  }

  function SpaceAtEnd(s: Bytes): (n: nat)
    ensures n <= |s|
  {
    if |s| >= 1 && (9 <= s[|s| - 1] <= 13 || s[|s| - 1] == 32) then 1
    else if |s| >= 2 && s[|s| - 2] == 0xC2 && s[|s| - 1] in {0x85, 0xA0} then 2
    else if |s| >= 3 && WideSpace(s[|s| - 3..]) then 3
    else 0
  }

  /** The whitespace characters that UTF-8 encodes in three bytes. */
  predicate WideSpace(s: Bytes) {
    || s == [0xE1, 0x9A, 0x80]
    || (|s| == 3 && s[..2] == [0xE2, 0x80] && (0x80 <= s[2] <= 0x8A || s[2] in {0xA8, 0xA9, 0xAF}))
    || s == [0xE2, 0x81, 0x9F]
    || s == [0xE3, 0x80, 0x80]
  }

  /** `str::trim` on the bytes of a string. */
  function TrimBytes(s: Bytes): Bytes
    decreases |s|
  {
    if SpaceAtStart(s) > 0 then TrimBytes(s[SpaceAtStart(s)..])
    else if SpaceAtEnd(s) > 0 then TrimBytes(s[..|s| - SpaceAtEnd(s)])
    else s
  }

  // ---- The decoder --------------------------------------------------------

  /** The position of the first CR LF of `s`, or |s| if there is none. */
  function LineEnd(s: Bytes): (i: nat)
    ensures i <= |s| && (i < |s| ==> i + 2 <= |s|)
  {
    if |s| < 2 then |s| else if s[..2] == CRLF then 0 else 1 + LineEnd(s[1..])
  }

  /** The size announced by the header that `s` starts with; 0 if there is none, so that decoding stops. */
  function NextSize(s: Bytes): (size: nat)
    ensures size > 0 ==> LineEnd(s) + 2 <= |s|
  {
    var e := LineEnd(s);
    if e == |s| then 0 else match ParseSize(TrimBytes(s[..e])) { case None => 0 case Some(size) => size }
  }

  /** The decoder's result; `Overflow` is the panic on adding an announced size that no address space can hold. */
  datatype Outcome = Decoded(body: Bytes) | Overflow

  function Prepend(chunk: Bytes, rest: Outcome): Outcome {
    match rest
    case Decoded(body) => Decoded(chunk + body)
    case Overflow => Overflow
  }

  /** Decoding the bytes from a chunk header on; `pos` is how many bytes precede them. */
  function DecodeFrom(s: Bytes, pos: nat): Outcome
    decreases |s|
  {
    var start, size := LineEnd(s) + 2, NextSize(s);
    if size == 0 then Decoded([])
    else if pos + start + size >= USIZE_LIMIT then Overflow
    else if start + size + 2 >= |s| then Decoded(s[start..Min(start + size, |s|)])
    else Prepend(s[start..start + size], DecodeFrom(s[start + size + 2..], pos + start + size + 2))
  }

  function Decode(data: Bytes): Outcome {
    DecodeFrom(data, 0)
  }

  /** The loop invariant: what is decoded so far, followed by what the rest decodes to, is the result. */
  predicate Progress(data: Bytes, out: Bytes, pos: nat) {
    pos <= |data| && Decode(data) == Prepend(out, DecodeFrom(data[pos..], pos))
  }

  method DecodeChunked(data: Bytes) returns (result: Outcome)
    ensures result == Decode(data)
  {
    hide Progress, Decode, ParseSize, TrimBytes, LineEnd;
    var out: Bytes := [];
    var pos: nat := 0;
    ProgressAtStart(data);
    while true
      invariant pos <= |data| && Progress(data, out, pos)
      decreases |data| - pos
    {
      var lineEnd := pos + LineEnd(data[pos..]);
      if lineEnd == |data| {
        ProgressStops(data, out, pos, 0);
        return Decoded(out);
      }
      var size := ParseSize(TrimBytes(data[pos..lineEnd]));
      HeaderSize(data, pos);
      if size == None || size.value == 0 {
        ProgressStops(data, out, pos, 0);
        return Decoded(out);
      }
      var chunkStart := lineEnd + 2;
      if chunkStart + size.value >= USIZE_LIMIT {
        ProgressStops(data, out, pos, size.value);
        return Overflow;
      }
      var chunkEnd := Min(chunkStart + size.value, |data|);
      if chunkEnd + 2 >= |data| {
        ProgressStops(data, out, pos, size.value);
      } else {
        ProgressGoesOn(data, out, pos, size.value);
      }
      out := out + data[chunkStart..chunkEnd];
      pos := chunkEnd + 2;
      if pos >= |data| {
        return Decoded(out);
      }
    }
  }

  lemma ProgressAtStart(data: Bytes)
    ensures Progress(data, [], 0)
  {
    assert data[0..] == data;
    PrependNothing(Decode(data));
  }

  lemma ProgressGoesOn(data: Bytes, out: Bytes, pos: nat, size: nat)
    requires Progress(data, out, pos) && size == NextSize(data[pos..]) > 0
    requires var stop := pos + LineEnd(data[pos..]) + 2 + size; stop < USIZE_LIMIT && stop + 2 < |data|
    ensures var start := pos + LineEnd(data[pos..]) + 2;
            Progress(data, out + data[start..start + size], start + size + 2)
  {
    hide LineEnd, NextSize, DecodeFrom;
    var s, start := data[pos..], pos + LineEnd(data[pos..]) + 2;
    DecodeGoesOn(s, pos);
    assert data[start..start + size] == s[start - pos..start + size - pos];
    assert s[start + size + 2 - pos..] == data[start + size + 2..];
    PrependTwice(out, data[start..start + size], DecodeFrom(data[start + size + 2..], start + size + 2));
  }

  lemma ProgressStops(data: Bytes, out: Bytes, pos: nat, size: nat)
    requires Progress(data, out, pos) && size == NextSize(data[pos..])
    ensures size == 0 ==> Decode(data) == Decoded(out)
    ensures var start := pos + LineEnd(data[pos..]) + 2;
            size > 0 ==>
              && (start + size >= USIZE_LIMIT ==> Decode(data) == Overflow)
              && (start + size < USIZE_LIMIT && start + size + 2 >= |data| ==>
                    Decode(data) == Decoded(out + data[start..Min(start + size, |data|)]))
  {
    hide LineEnd, NextSize, DecodeFrom;
    var s, start := data[pos..], pos + LineEnd(data[pos..]) + 2;
    DecodeStops(s, pos);
    assert out + [] == out;
    if size > 0 && start + size + 2 >= |data| {
      var stop := Min(start + size, |data|);
      assert data[start..stop] == s[start - pos..stop - pos];
    }
  }

  /** One turn of the loop that is not the last. */
  lemma DecodeGoesOn(s: Bytes, pos: nat)
    requires NextSize(s) > 0
    requires pos + LineEnd(s) + 2 + NextSize(s) < USIZE_LIMIT && LineEnd(s) + 2 + NextSize(s) + 2 < |s|
    ensures var start, stop := LineEnd(s) + 2, LineEnd(s) + 2 + NextSize(s);
            DecodeFrom(s, pos) == Prepend(s[start..stop], DecodeFrom(s[stop + 2..], pos + stop + 2))
  {
    hide NextSize, LineEnd, Prepend;
  }

  /** The three ways in which the loop ends. */
  lemma DecodeStops(s: Bytes, pos: nat)
    ensures NextSize(s) == 0 ==> DecodeFrom(s, pos) == Decoded([])
    ensures NextSize(s) > 0 && pos + LineEnd(s) + 2 + NextSize(s) >= USIZE_LIMIT ==> DecodeFrom(s, pos) == Overflow
    ensures var start, stop := LineEnd(s) + 2, LineEnd(s) + 2 + NextSize(s);
            NextSize(s) > 0 && pos + stop < USIZE_LIMIT && stop + 2 >= |s| ==>
              DecodeFrom(s, pos) == Decoded(s[start..Min(stop, |s|)])
  {
  }

  lemma {:induction false} HeaderSize(data: Bytes, pos: nat)
    requires pos <= |data|
    ensures var e := LineEnd(data[pos..]);
            NextSize(data[pos..]) ==
              if pos + e == |data| then 0
              else match ParseSize(TrimBytes(data[pos..pos + e])) { case None => 0 case Some(size) => size }
  {
    var e := LineEnd(data[pos..]);
    assert data[pos..pos + e] == data[pos..][..e];
  }

  lemma PrependNothing(o: Outcome)
    ensures Prepend([], o) == o
  {
    if o.Decoded? {
      assert [] + o.body == o.body;
    }
  }

  lemma PrependOutcome(a: Bytes, b: Bytes)
    ensures Prepend(a, Overflow) == Overflow && Prepend(a, Decoded(b)) == Decoded(a + b)
  {
  }

  lemma PrependTwice(a: Bytes, b: Bytes, o: Outcome)
    ensures Prepend(a, Prepend(b, o)) == Prepend(a + b, o)
  {
    if o.Decoded? {
      assert a + (b + o.body) == a + b + o.body;
    }
  }

  // ---- The encoder of RFC 9112, section 7.1 -------------------------------

  /** A chunk: its data and the sender's way of writing its size. */
  datatype Chunk = Chunk(size: Bytes, data: Bytes) {
    predicate Valid() {
      data != [] && size != [] && IsHex(size) && HexValue(size) == |data|
    }
  }

  predicate AllValid(chunks: seq<Chunk>) {
    forall i | 0 <= i < |chunks| :: chunks[i].Valid()
  }

  /** The chunks, the last chunk with its size written `zero`, and whatever follows. */
  function Encode(chunks: seq<Chunk>, zero: Bytes, tail: Bytes): Bytes {
    if chunks == [] then zero + CRLF + tail
    else chunks[0].size + CRLF + chunks[0].data + CRLF + Encode(chunks[1..], zero, tail)
  }

  function Payload(chunks: seq<Chunk>): Bytes {
    if chunks == [] then [] else chunks[0].data + Payload(chunks[1..])
  }

  lemma {:induction false} LineEndIs(h: Bytes, rest: Bytes)
    requires IsHex(h)
    ensures LineEnd(h + CRLF + rest) == |h|
  {
    var s := h + CRLF + rest;
    if h == [] {
      assert s[..2] == CRLF;
    } else {
      assert HexDigit(h[0]).Some?;
      assert s[..2][0] == h[0];
      assert s[1..] == h[1..] + CRLF + rest;
      LineEndIs(h[1..], rest);
    }
  }

  lemma NoSpaceAtStart(h: Bytes)
    requires h != [] && HexDigit(h[0]).Some?
    ensures SpaceAtStart(h) == 0
  {
    if |h| >= 3 {
      assert h[..3][0] == h[0];
    }
  }

  lemma NoSpaceAtEnd(h: Bytes)
    requires h != [] && HexDigit(h[|h| - 1]).Some?
    ensures SpaceAtEnd(h) == 0
  {
    if |h| >= 3 {
      assert h[|h| - 3..][2] == h[|h| - 1];
    }
  }

  lemma {:induction false} TrimHex(h: Bytes)
    requires h != [] && IsHex(h)
    ensures TrimBytes(h) == h
  {
    hide SpaceAtStart, SpaceAtEnd;
    NoSpaceAtStart(h);
    NoSpaceAtEnd(h);
  }

  lemma HeaderReads(h: Bytes, rest: Bytes)
    requires h != [] && IsHex(h) && HexValue(h) < USIZE_LIMIT
    ensures LineEnd(h + CRLF + rest) == |h| && NextSize(h + CRLF + rest) == HexValue(h)
  {
    assert h[0] != 43 && |CRLF| == 2;
    LineEndIs(h, rest);
    TrimHex(h);
    hide LineEnd, TrimBytes, HexDigit, IsHex, HexValue, CRLF;
    assert (h + CRLF + rest)[..|h|] == h;
    assert ParseSize(h) == Some(HexValue(h));
  }

  lemma DecodeChunk(c: Chunk, rest: Bytes, pos: nat)
    requires c.Valid() && rest != []
    requires pos + |c.size| + 4 + |c.data| + |rest| < USIZE_LIMIT
    ensures DecodeFrom(c.size + CRLF + c.data + CRLF + rest, pos)
         == Prepend(c.data, DecodeFrom(rest, pos + |c.size| + 4 + |c.data|))
  {
    hide NextSize, LineEnd, Prepend;
    var s := c.size + CRLF + c.data + CRLF + rest;
    assert s == c.size + CRLF + (c.data + CRLF + rest);
    HeaderReads(c.size, c.data + CRLF + rest);
    var start := |c.size| + 2;
    assert s[start..start + |c.data|] == c.data;
    assert s[start + |c.data| + 2..] == rest;
  }

  /**
   Every list of non-empty chunks is decoded to the concatenation of their data, whatever the data
   holds (CR LF included), however the sizes are written, and whatever follows the last chunk.
   */
  lemma {:induction false} RoundTrip(chunks: seq<Chunk>, zero: Bytes, tail: Bytes, pos: nat)
    requires AllValid(chunks) && zero != [] && IsHex(zero) && HexValue(zero) == 0
    requires pos + |Encode(chunks, zero, tail)| < USIZE_LIMIT
    ensures DecodeFrom(Encode(chunks, zero, tail), pos) == Decoded(Payload(chunks))
  {
    if chunks == [] {
      hide LineEnd, NextSize;
      HeaderReads(zero, tail);
    } else {
      hide DecodeFrom, LineEnd, NextSize, HexValue, HexDigit, Prepend;
      var c, rest := chunks[0], Encode(chunks[1..], zero, tail);
      assert Encode(chunks, zero, tail) == c.size + CRLF + c.data + CRLF + rest;
      hide Encode;
      assert c.Valid() && AllValid(chunks[1..]);
      RoundTrip(chunks[1..], zero, tail, pos + |c.size| + 4 + |c.data|);
      assert rest != [] by { EncodeNotEmpty(chunks[1..], zero, tail); }
      DecodeChunk(c, rest, pos);
      PrependOutcome(c.data, Payload(chunks[1..]));
    }
  }

  lemma EncodeNotEmpty(chunks: seq<Chunk>, zero: Bytes, tail: Bytes)
    ensures Encode(chunks, zero, tail) != []
  {
    assert |CRLF| == 2;
  }

  /** A sender that writes sizes in the shortest way, with either case of letters. */
  function Hex(n: nat, upper: bool): (h: Bytes)
    ensures IsHex(h) && HexValue(h) == n && h != []
  {
    var d := n % 16;
    var b := if d < 10 then (48 + d) as byte else if upper then (55 + d) as byte else (87 + d) as byte;
    if n < 16 then
      assert HexValue([b][..0]) == 0;
      [b]
    else
      var h := Hex(n / 16, upper);
      assert (h + [b])[..|h|] == h;
      h + [b]
  }

  /** Leading zeros do not change a size. */
  lemma {:induction false} LeadingZero(h: Bytes)
    requires IsHex(h)
    ensures IsHex([48] + h) && HexValue([48] + h) == HexValue(h)
  {
    var z: Bytes := [48] + h;
    if h == [] {
      assert z[..0] == [];
    } else {
      assert z[..|z| - 1] == [48] + h[..|h| - 1];
      LeadingZero(h[..|h| - 1]);
    }
  }

  // ---- Arbitrary and truncated input --------------------------------------

  lemma {:induction false} LineEndOfPrefix(p: Bytes, d: Bytes)
    requires p <= d && LineEnd(p) < |p|
    ensures LineEnd(d) == LineEnd(p)
  {
    assert p[..2] == d[..2];
    if p[..2] != CRLF {
      LineEndOfPrefix(p[1..], d[1..]);
    }
  }

  lemma {:induction false} NextSizeOfPrefix(p: Bytes, d: Bytes)
    requires p <= d && NextSize(p) > 0
    ensures NextSize(d) == NextSize(p) && LineEnd(d) == LineEnd(p)
  {
    LineEndOfPrefix(p, d);
    assert p[..LineEnd(p)] == d[..LineEnd(p)];
  }

  /**
   A truncated body decodes to a prefix of what the whole body decodes to, and never
   overflows when the whole body does not.
   */
  lemma {:induction false} PrefixMonotone(p: Bytes, d: Bytes, pos: nat)
    requires p <= d && DecodeFrom(d, pos).Decoded?
    ensures DecodeFrom(p, pos).Decoded? && DecodeFrom(p, pos).body <= DecodeFrom(d, pos).body
    decreases |p|
  {
    hide NextSize, LineEnd, DecodeFrom;
    var start, size := LineEnd(p) + 2, NextSize(p);
    var stop := start + size;
    DecodeStops(p, pos);
    if size > 0 {
      NextSizeOfPrefix(p, d);
      DecodeStops(d, pos);
      if stop + 2 < |d| {
        DecodeGoesOn(d, pos);
      }
      if stop + 2 < |p| {
        DecodeGoesOn(p, pos);
        assert p[start..stop] == d[start..stop];
        assert p[stop + 2..] <= d[stop + 2..];
        PrefixMonotone(p[stop + 2..], d[stop + 2..], pos + stop + 2);
      } else {
        assert p[start..Min(stop, |p|)] <= d[start..Min(stop, |d|)];
      }
    }
  }

  /** The decoder never invents bytes: the output is no longer than the input it was cut from. */
  lemma {:induction false} NoLonger(s: Bytes, pos: nat)
    requires DecodeFrom(s, pos).Decoded?
    ensures |DecodeFrom(s, pos).body| <= |s|
    decreases |s|
  {
    hide NextSize, LineEnd;
    var next := LineEnd(s) + 2 + NextSize(s) + 2;
    if NextSize(s) > 0 && next < |s| {
      NoLonger(s[next..], pos + next);
    }
  }

  /** A chunk that the decoder starts to read: where its data starts and the size announced for it. */
  datatype Announced = Announced(start: nat, size: nat)

  function Headers(s: Bytes, pos: nat): seq<Announced>
    decreases |s|
  {
    var start, size := LineEnd(s) + 2, NextSize(s);
    if size == 0 then []
    else
      [Announced(pos + start, size)]
      + (if start + size + 2 >= |s| then [] else Headers(s[start + size + 2..], pos + start + size + 2))
  }

  predicate BeyondAddressSpace(a: Announced) {
    a.start + a.size >= USIZE_LIMIT
  }

  predicate SomeBeyond(headers: seq<Announced>) {
    exists i | 0 <= i < |headers| :: BeyondAddressSpace(headers[i])
  }

  lemma SomeBeyondStep(here: Announced, more: seq<Announced>)
    ensures SomeBeyond([here] + more) <==> BeyondAddressSpace(here) || SomeBeyond(more)
  {
    hide BeyondAddressSpace;
    assert ([here] + more)[0] == here;
    assert forall i | 0 <= i < |more| :: ([here] + more)[i + 1] == more[i];
  }

  /** Decoding fails exactly when a header it reaches announces a chunk that would end beyond the address space. */
  lemma {:induction false} OverflowExactly(s: Bytes, pos: nat)
    ensures DecodeFrom(s, pos) == Overflow <==> SomeBeyond(Headers(s, pos))
    decreases |s|
  {
    hide NextSize, LineEnd, SomeBeyond;
    var start, size := LineEnd(s) + 2, NextSize(s);
    if size > 0 {
      var here := Announced(pos + start, size);
      var next := start + size + 2;
      var more := if next >= |s| then [] else Headers(s[next..], pos + next);
      assert Headers(s, pos) == [here] + more;
      SomeBeyondStep(here, more);
      NoneBeyond();
      if next < |s| {
        OverflowExactly(s[next..], pos + next);
      }
    } else {
      NoneBeyond();
    }
  }

  lemma NoneBeyond()
    ensures !SomeBeyond([])
  {
  }

  /** Sixteen digits F announce more than can be added to any offset. */
  lemma {:induction false} OverflowExample()
    ensures Decode([70, 70, 70, 70, 70, 70, 70, 70, 70, 70, 70, 70, 70, 70, 70, 70, 13, 10]) == Overflow
  {
    var h: Bytes := [70, 70, 70, 70, 70, 70, 70, 70, 70, 70, 70, 70, 70, 70, 70, 70];
    HexOfFs(h);
    assert h + CRLF + [] == [70, 70, 70, 70, 70, 70, 70, 70, 70, 70, 70, 70, 70, 70, 70, 70, 13, 10];
    HeaderReads(h, []);
  }

  lemma HexOfFs(h: Bytes)
    requires |h| == 16 && forall i | 0 <= i < 16 :: h[i] == 70
    ensures IsHex(h) && HexValue(h) == USIZE_LIMIT - 1
  {
    FsValue(h);
    assert Pow16(16) == USIZE_LIMIT by {
      assert Pow16(4) == 0x1_0000;
      assert Pow16(8) == 0x1_0000_0000;
      assert Pow16(12) == 0x1_0000_0000_0000;
    }
  }

  function Pow16(n: nat): nat {
    if n == 0 then 1 else 16 * Pow16(n - 1)
  }

  lemma {:induction false} FsValue(h: Bytes)
    requires forall i | 0 <= i < |h| :: h[i] == 70
    ensures IsHex(h) && HexValue(h) == Pow16(|h|) - 1
  {
    if h == [] {
    } else {
      FsValue(h[..|h| - 1]);
    }
  }

  // ---- Headers of other forms ----------------------------------------------------------------

  /** Spaces and tabs. */
  predicate Blank(s: Bytes) {
    forall i | 0 <= i < |s| :: s[i] == 32 || s[i] == 9
  }

  lemma {:induction false} LineEndAfter(front: Bytes, rest: Bytes)
    requires 13 !in front
    ensures LineEnd(front + CRLF + rest) == |front|
  {
    var s := front + CRLF + rest;
    if front == [] {
      assert s[..2] == CRLF;
    } else {
      assert s[..2][0] == front[0] && front[0] in front && CRLF[0] == 13;
      assert s[1..] == front[1..] + CRLF + rest;
      LineEndAfter(front[1..], rest);
    }
  }

  lemma {:induction false} TrimFront(a: Bytes, s: Bytes)
    requires Blank(a)
    ensures TrimBytes(a + s) == TrimBytes(s)
  {
    if a == [] {
      assert a + s == s;
    } else {
      assert (a + s)[1..] == a[1..] + s;
      assert SpaceAtStart(a + s) == 1;
      TrimFront(a[1..], s);
    }
  }

  lemma {:induction false} TrimBack(s: Bytes, b: Bytes)
    requires Blank(b) && s != [] && SpaceAtStart(s + b) == 0 && SpaceAtStart(s) == 0
    requires forall k | 0 <= k <= |b| :: SpaceAtStart(s + b[..k]) == 0
    ensures TrimBytes(s + b) == TrimBytes(s)
    decreases |b|
  {
    if b == [] {
      assert s + b == s;
    } else {
      var short := b[..|b| - 1];
      assert (s + b)[..|s + b| - 1] == s + short;
      assert SpaceAtEnd(s + b) == 1;
      assert s + b[..|b| - 1] == s + short;
      assert forall k | 0 <= k <= |short| :: short[..k] == b[..k];
      TrimBack(s, short);
    }
  }

  /** A byte that starts no space, neither of ASCII nor of the wider ones. */
  lemma StartsNoSpace(s: Bytes)
    requires s != [] && (s[0] == 43 || HexDigit(s[0]).Some?)
    ensures SpaceAtStart(s) == 0
  {
    if |s| >= 3 {
      assert s[..3][0] == s[0];
    }
  }

  lemma TrimAround(a: Bytes, s: Bytes, b: Bytes)
    requires Blank(a) && Blank(b) && s != [] && (s[0] == 43 || HexDigit(s[0]).Some?) && HexDigit(s[|s| - 1]).Some?
    ensures TrimBytes(a + s + b) == s
  {
    assert a + s + b == a + (s + b);
    forall k | 0 <= k <= |b|
      ensures SpaceAtStart(s + b[..k]) == 0
    {
      StartsNoSpace(s + b[..k]);
    }
    assert s + b[..|b|] == s + b && s + b[..0] == s;
    NoSpaceAtEnd(s);
    assert TrimBytes(s) == s;
    hide TrimBytes, SpaceAtStart, SpaceAtEnd, HexDigit;
    TrimFront(a, s + b);
    TrimBack(s, b);
  }

  /** A size may have a plus sign in front, and spaces and tabs around it. */
  lemma {:induction false} PaddedHeader(a: Bytes, plus: bool, h: Bytes, b: Bytes, rest: Bytes)
    requires Blank(a) && Blank(b) && h != [] && IsHex(h) && HexValue(h) < 0x1_0000_0000_0000_0000
    ensures NextSize(a + ((if plus then [43] else []) + h) + b + CRLF + rest) == HexValue(h)
  {
    var s: Bytes := (if plus then [43] else []) + h;
    var line := a + s + b;
    assert HexDigit(h[0]).Some? && HexDigit(h[|h| - 1]).Some? && s[|s| - 1] == h[|h| - 1];
    assert s[0] == 43 || s == h;
    TrimAround(a, s, b);
    SignDropped(plus, h);
    assert 13 !in line by {
      assert 13 !in a && 13 !in b;
      assert 13 !in h by { forall i | 0 <= i < |h| ensures h[i] != 13 { assert HexDigit(h[i]).Some?; } }
    }
    hide TrimBytes, HexDigit, IsHex, HexValue, ParseSize, CRLF, LineEnd;
    LineEndAfter(line, rest);
    assert (line + CRLF + rest)[..|line|] == line && |CRLF| == 2;
  }

  lemma SignDropped(plus: bool, h: Bytes)
    requires h != [] && IsHex(h) && HexValue(h) < 0x1_0000_0000_0000_0000
    ensures ParseSize((if plus then [43] else []) + h) == Some(HexValue(h))
  {
    assert HexDigit(h[0]).Some?;
    assert h[0] != 43;
    if plus {
      assert ([43] + h)[1..] == h;
    } else {
      assert [] + h == h;
    }
  }

  /** A size of 2^64 or more, and one with anything else than digits in it, such as a chunk extension, end the body. */
  lemma {:induction false} RefusedHeader(h: Bytes, rest: Bytes)
    requires h != [] && SpaceAtStart(h) == 0 && SpaceAtEnd(h) == 0 && 13 !in h && h[0] != 43
    requires !IsHex(h) || HexValue(h) >= 0x1_0000_0000_0000_0000
    ensures Decode(h + CRLF + rest) == Decoded([])
  {
    assert TrimBytes(h) == h && ParseSize(h) == None;
    hide TrimBytes, HexDigit, IsHex, HexValue, ParseSize, CRLF, LineEnd;
    LineEndAfter(h, rest);
    assert (h + CRLF + rest)[..|h|] == h && |CRLF| == 2;
  }

  /** The header `5;x`, a size with an extension. */
  lemma ExtensionExample(rest: Bytes)
    ensures Decode([53, 59, 120, 13, 10] + rest) == Decoded([])
  {
    var h: Bytes := [53, 59, 120];
    assert HexDigit(h[1]) == None;
    assert !IsHex(h) && SpaceAtStart(h) == 0 && SpaceAtEnd(h) == 0;
    hide *;
    ExtensionBytes(rest);
    RefusedHeader(h, rest);
  }

  lemma ExtensionBytes(rest: Bytes)
    ensures [53, 59, 120, 13, 10] + rest == [53, 59, 120] + CRLF + rest
  {
  }

  // ---- Digits and whitespace, by their codes ---------------------------------------------------

  lemma DigitByCode(b: byte)
    ensures HexDigit(b) ==
              if b as int in {48, 49, 50, 51, 52, 53, 54, 55, 56, 57} then Some(b as int - 48)
              else if b as int in {65, 66, 67, 68, 69, 70} then Some(b as int - 55)
              else if b as int in {97, 98, 99, 100, 101, 102} then Some(b as int - 87)
              else None
  {
  }

  /** A character of the basic multilingual plane in UTF-8. */
  function Utf8(code: nat): Bytes
    requires code < 0x10000
  {
    if code < 0x80 then [code as byte]
    else if code < 0x800 then [(0xC0 + code / 64) as byte, (0x80 + code % 64) as byte]
    else [(0xE0 + code / 4096) as byte, (0x80 + code / 64 % 64) as byte, (0x80 + code % 64) as byte]
  }

  /** The codes of White_Space. */
  predicate SpaceCode(code: nat) {
    code in {9, 10, 11, 12, 13, 32, 0x85, 0xA0, 0x1680, 0x2028, 0x2029, 0x202F, 0x205F, 0x3000} ||
      0x2000 <= code <= 0x200A
  }

  /** Trimming takes every character of White_Space off either end. */
  lemma SpacesAreTrimmed(code: nat, s: Bytes)
    requires SpaceCode(code)
    ensures SpaceAtStart(Utf8(code) + s) == |Utf8(code)|
    ensures TrimBytes(Utf8(code) + s) == TrimBytes(s)
  {
    var u := Utf8(code);
    SpaceEncoded(code);
    assert (u + s)[|u|..] == s;
    if |u| == 3 {
      assert (u + s)[..3] == u;
      assert u[0] != 0xC2 && u[0] > 127;
    }
    hide SpaceCode, Utf8;
  }

  /** The encodings of White_Space. */
  lemma SpaceEncoded(code: nat)
    requires SpaceCode(code)
    ensures var u := Utf8(code);
            || (|u| == 1 && (9 <= u[0] <= 13 || u[0] == 32))
            || (|u| == 2 && u[0] == 0xC2 && u[1] in {0x85, 0xA0})
            || (|u| == 3 && WideSpace(u) && u[0] in {0xE1, 0xE2, 0xE3})
  {
  }

  /** The bytes are the encoding of a character of White_Space. */
  ghost predicate EncodedSpace(u: Bytes) {
    exists code | SpaceCode(code) :: Utf8(code) == u
  }

  /** Nothing else is trimmed: what is taken off an end is the encoding of a character of White_Space. */
  lemma OnlySpacesAreTrimmed(s: Bytes)
    ensures SpaceAtStart(s) > 0 ==> EncodedSpace(s[..SpaceAtStart(s)])
    ensures SpaceAtEnd(s) > 0 ==> EncodedSpace(s[|s| - SpaceAtEnd(s)..])
  {
    hide *;
    if SpaceAtStart(s) > 0 {
      StartShape(s);
      DecodedSpace(s[..SpaceAtStart(s)]);
    }
    if SpaceAtEnd(s) > 0 {
      EndShape(s);
      DecodedSpace(s[|s| - SpaceAtEnd(s)..]);
    }
  }

  predicate SpaceShape(u: Bytes) {
    || (|u| == 1 && (9 <= u[0] <= 13 || u[0] == 32))
    || (|u| == 2 && u[0] == 0xC2 && u[1] in {0x85, 0xA0})
    || (|u| == 3 && WideSpace(u))
  }

  lemma StartShape(s: Bytes)
    requires SpaceAtStart(s) > 0
    ensures SpaceShape(s[..SpaceAtStart(s)])
  {
    hide WideSpace;
  }

  lemma EndShape(s: Bytes)
    requires SpaceAtEnd(s) > 0
    ensures SpaceShape(s[|s| - SpaceAtEnd(s)..])
  {
    hide WideSpace;
  }

  lemma DecodedSpace(u: Bytes)
    requires SpaceShape(u)
    ensures EncodedSpace(u)
  {
    if |u| == 1 {
      assert Utf8(u[0] as int) == u;
    } else if |u| == 2 {
      assert Utf8(u[1] as int) == u;
    } else {
      DecodedWideSpace(u);
    }
  }

  lemma DecodedWideSpace(u: Bytes)
    requires WideSpace(u)
    ensures EncodedSpace(u)
  {
    var code: nat := (u[0] as int - 0xE0) * 4096 + (u[1] as int - 0x80) * 64 + (u[2] as int - 0x80);
    assert SpaceCode(code);
    assert Utf8(code) == u;
  }

  /** And at the end likewise, where the last bytes decide. */
  lemma SpacesAreTrimmedAtEnd(s: Bytes, code: nat)
    requires SpaceCode(code)
    ensures SpaceAtEnd(s + Utf8(code)) == |Utf8(code)|
  {
    var u := Utf8(code);
    var t := s + u;
    SpaceEncoded(code);
    if |u| == 1 {
      assert t[|t| - 1] == u[0];
    } else if |u| == 2 {
      assert t[|t| - 2] == u[0] && t[|t| - 1] == u[1];
    } else {
      assert t[|t| - 3..] == u;
      assert t[|t| - 2] == u[1] && t[|t| - 1] == u[2];
    }
  }

  lemma BehindHeader(h: Bytes, rest: Bytes, n: nat)
    requires n <= |rest|
    ensures var s := h + CRLF + rest; |s| == |h| + 2 + |rest| && s[|h| + 2..|h| + 2 + n] == rest[..n]
  {
    assert |CRLF| == 2;
  }

  lemma OnlyChunk(s: Bytes, start: nat, size: nat, n: nat)
    requires start == LineEnd(s) + 2 <= |s| && size == NextSize(s) > 0 && start + size + 2 >= |s|
    requires n == if size < |s| - start then size else |s| - start
    ensures Decode(s) == if start + size >= 0x1_0000_0000_0000_0000 then Overflow else Decoded(s[start..start + n])
  {
    hide NextSize, LineEnd;
  }

  lemma SizeReads(h: Bytes, rest: Bytes, size: nat)
    requires h != [] && IsHex(h) && size == HexValue(h) && size < 0x1_0000_0000_0000_0000
    ensures LineEnd(h + CRLF + rest) == |h| && NextSize(h + CRLF + rest) == size
  {
    hide IsHex, HexValue, HexDigit, LineEnd, NextSize, CRLF;
    HeaderReads(h, rest);
  }

  /** A first chunk that would end at 2^64 or beyond overflows, and one that ends before does not. */
  lemma FirstChunkExactly(h: Bytes, rest: Bytes, size: nat)
    requires h != [] && IsHex(h) && size == HexValue(h) && 0 < size < 0x1_0000_0000_0000_0000 && |rest| <= size + 2
    ensures Decode(h + CRLF + rest) ==
              if |h| + 2 + size >= 0x1_0000_0000_0000_0000 then Overflow
              else Decoded(rest[..if size < |rest| then size else |rest|])
  {
    hide *;
    var n: nat := if size < |rest| then size else |rest|;
    SizeReads(h, rest, size);
    BehindHeader(h, rest, n);
    OnlyChunk(h + CRLF + rest, |h| + 2, size, n);
  }
}
