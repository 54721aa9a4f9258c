/** Length-prefixed frames and raw content chunks over a stream that hands out bytes in
    whatever pieces it likes. */
module Wire {
  import opened Basics

  type Bytes = seq<byte>

  const MAX_FRAME := 4198400

  // ---------------------------------------------------------------------------
  // Lengths

  /** Four bytes, most significant first. */
  function Length(n: nat): (b: Bytes)
    requires n < 0x1_0000_0000
    ensures |b| == 4
  {
    [(n / 0x100_0000) as byte, (n / 0x1_0000 % 0x100) as byte, (n / 0x100 % 0x100) as byte, (n % 0x100) as byte]
  }

  function Number(b: Bytes): (n: nat)
    requires |b| == 4
    ensures n < 0x1_0000_0000
  {
    b[0] as nat * 0x100_0000 + b[1] as nat * 0x1_0000 + b[2] as nat * 0x100 + b[3] as nat
  }

  lemma LengthRoundTrip(n: nat)
    requires n < 0x1_0000_0000
    ensures Number(Length(n)) == n
  {
    Digits(n);
  }

  /** The first byte counts most. */
  lemma NumberMeaning(b: Bytes)
    requires |b| == 4
    ensures Number(b) == ((b[0] as nat * 256 + b[1] as nat) * 256 + b[2] as nat) * 256 + b[3] as nat
    ensures Length(Number(b)) == b
  {
    var n, i, j, k, l := Number(b), b[0] as nat, b[1] as nat, b[2] as nat, b[3] as nat;
    assert n / 0x100 == (i * 0x100 + j) * 0x100 + k && n % 0x100 == l;
    assert n / 0x1_0000 == i * 0x100 + j && n / 0x100 % 0x100 == k;
    assert n / 0x100_0000 == i && n / 0x1_0000 % 0x100 == j;
  }

  lemma Digits(n: nat)
    ensures n == n / 0x100_0000 * 0x100_0000 + n / 0x1_0000 % 0x100 * 0x1_0000 + n / 0x100 % 0x100 * 0x100 + n % 0x100
  {
    var a := n / 0x100;
    var b := a / 0x100;
    assert n / 0x1_0000 == b && n / 0x100_0000 == b / 0x100;
    assert n == a * 0x100 + n % 0x100 && a == b * 0x100 + a % 0x100 && b == b / 0x100 * 0x100 + b % 0x100;
  }

  // ---------------------------------------------------------------------------
  // Reading

  datatype Reading = Reading(value: Result<Bytes>, rest: Bytes)

  /** Reading exactly a number of bytes, whatever the pieces. */
  function Exactly(input: Bytes, count: nat): Reading {
    if count <= |input| then Reading(Ok(input[..count]), input[count..]) else Reading(Err(Interrupted), [])
  }

  /** One frame's payload. */
  function Frame(input: Bytes, limit: nat): Reading {
    var head := Exactly(input, 4);
    if head.value.Err? then head
    else
      var size := Number(head.value.value);
      if size == 0 then Reading(Err(MalformedFrame), head.rest)
      else if size > limit || size > MAX_FRAME then Reading(Err(Oversized), head.rest)
      else Exactly(head.rest, size)
  }

  /** A connection: what is still to come and what was written. */
  class Stream {
    var incoming: Bytes
    var outgoing: Bytes

    constructor (input: Bytes)
      ensures incoming == input && outgoing == []
    {
      incoming, outgoing := input, [];
    }

    /** Some of what is to come, at most count bytes; nothing only at the end. */
    method Receive(count: nat) returns (part: Bytes)
      requires count > 0
      modifies this`incoming
      ensures |part| <= count && old(incoming) == part + incoming
      ensures part == [] ==> old(incoming) == []
    {
      if incoming == [] {
        return [];
      }
      var k :| 0 < k <= |incoming| && k <= count;
      part := incoming[..k];
      incoming := incoming[k..];
    }

    method ReadExact(count: nat) returns (r: Result<Bytes>)
      modifies this`incoming
      ensures r == Exactly(old(incoming), count).value && incoming == Exactly(old(incoming), count).rest
    {
      var out: Bytes := [];
      while |out| < count
        invariant |out| <= count && old(incoming) == out + incoming
        decreases count - |out|
      {
        var part := Receive(count - |out|);
        if part == [] {
          return Err(Interrupted);
        }
        out := out + part;
      }
      return Ok(out);
    }

    method ReadFrame(limit: nat) returns (r: Result<Bytes>)
      modifies this`incoming
      ensures r == Frame(old(incoming), limit).value && incoming == Frame(old(incoming), limit).rest
    {
      var head :- ReadExact(4);
      var size := Number(head);
      if size == 0 {
        return Err(MalformedFrame);
      }
      if size > limit || size > MAX_FRAME {
        return Err(Oversized);
      }
      r := ReadExact(size);
    }

    method WriteFrame(payload: Bytes) returns (c: Check)
      modifies this`outgoing
      ensures c == Require(|payload| <= MAX_FRAME, Oversized)
      ensures outgoing == old(outgoing) + if c.Pass? then Framed(payload) else []
    {
      if |payload| > MAX_FRAME {
        return Fail(Oversized);
      }
      outgoing := outgoing + Framed(payload);
      return Pass;
    }

    /** Receives content chunk by chunk up to the announced size. */
    method ReceiveContent(size: nat) returns (r: Result<Bytes>)
      modifies this`incoming
      ensures r == Content(old(incoming), size, []).value && incoming == Content(old(incoming), size, []).rest
    {
      var content: Bytes := [];
      var total := 0;
      while true
        invariant total == |content| <= size
        invariant Content(old(incoming), size, []) == Content(incoming, size, content)
        decreases |incoming|
      {
        var head :- ReadExact(4);
        var n := Number(head);
        if n == 0 {
          break;
        }
        if n > MAX_CHUNK || total + n > size {
          return Err(Oversized);
        }
        var chunk :- ReadExact(n);
        content := content + chunk;
        total := total + n;
      }
      return Ok(content);
    }
  }

  /** The bytes of one frame; a payload this long always has a length. */
  function Framed(payload: Bytes): Bytes
    requires |payload| <= MAX_FRAME
  {
    Length(|payload|) + payload
  }

  function Sendable(payload: Bytes): bool {
    1 <= |payload| <= MAX_FRAME
  }

  predicate AllSendable(payloads: seq<Bytes>) {
    forall i :: 0 <= i < |payloads| ==> Sendable(payloads[i])
  }

  function AllFramed(payloads: seq<Bytes>): Bytes
    requires AllSendable(payloads)
  {
    if payloads == [] then [] else Framed(payloads[0]) + AllFramed(payloads[1..])
  }

  datatype Session = Session(payloads: seq<Bytes>, ended: Error, rest: Bytes)

  /** Reading frames until something stops it. */
  function ReadAll(input: Bytes): Session
    decreases |input|
  {
    var first := Frame(input, MAX_FRAME);
    if first.value.Err? then Session([], first.value.code, first.rest)
    else
      var s := ReadAll(first.rest);
      Session([first.value.value] + s.payloads, s.ended, s.rest)
  }

  lemma FrameRoundTrip(payload: Bytes, tail: Bytes)
    requires Sendable(payload)
    ensures Frame(Framed(payload) + tail, MAX_FRAME) == Reading(Ok(payload), tail)
  {
    LengthRoundTrip(|payload|);
    var input := Framed(payload) + tail;
    assert input[..4] == Length(|payload|);
    assert input[4..] == payload + tail;
  }

  /** Whatever part of a written stream arrives, reading yields exactly the frames that arrived
      whole, in order and unchanged, then stops as interrupted. */
  lemma {:induction false} StreamsRoundTrip(payloads: seq<Bytes>, cut: nat)
    requires AllSendable(payloads) && cut <= |AllFramed(payloads)|
    ensures ReadAll(AllFramed(payloads)[..cut]).payloads <= payloads
    ensures ReadAll(AllFramed(payloads)[..cut]).ended == Interrupted
    ensures forall n :: 0 <= n <= |payloads| ==>
              (n <= |ReadAll(AllFramed(payloads)[..cut]).payloads| <==> |AllFramed(payloads[..n])| <= cut)
    ensures cut == |AllFramed(payloads)| ==> ReadAll(AllFramed(payloads)[..cut]).payloads == payloads
    decreases |payloads|
  {
    hide Frame, Framed;
    FramesAddUp(payloads);
    if payloads != [] {
      var first, rest := Framed(payloads[0]), AllFramed(payloads[1..]);
      var all := AllFramed(payloads);
      if cut >= |first| {
        assert all[..cut] == first + rest[..cut - |first|];
        FrameRoundTrip(payloads[0], rest[..cut - |first|]);
        StreamsRoundTrip(payloads[1..], cut - |first|);
      } else {
        CutFrame(payloads[0], cut);
        assert all[..cut] == first[..cut];
      }
    } else {
      NothingToRead();
    }
  }

  /** The bytes of the first n frames: the first frame's and those of the next n - 1. */
  lemma FramesAddUp(payloads: seq<Bytes>)
    requires AllSendable(payloads)
    ensures payloads == [] ==> AllFramed(payloads[..0]) == []
    ensures forall n :: 0 < n <= |payloads| ==>
              |AllFramed(payloads[..n])| == |Framed(payloads[0])| + |AllFramed(payloads[1..][..n - 1])|
  {
    forall n | 0 < n <= |payloads|
      ensures |AllFramed(payloads[..n])| == |Framed(payloads[0])| + |AllFramed(payloads[1..][..n - 1])|
    {
      assert payloads[..n][1..] == payloads[1..][..n - 1];
    }
  }

  /** Every way a frame can be read: the stream ends inside the length; the length is 0, or more
      than the limit or 4198400, and only it is consumed; the stream ends inside the payload; or
      the payload is what follows the length. */
  lemma FrameMeaning(input: Bytes, limit: nat)
    ensures |input| < 4 ==> Frame(input, limit) == Reading(Err(Interrupted), [])
    ensures |input| >= 4 ==>
              var n := ((input[0] as nat * 256 + input[1] as nat) * 256 + input[2] as nat) * 256 + input[3] as nat;
              && (n == 0 ==> Frame(input, limit) == Reading(Err(MalformedFrame), input[4..]))
              && (n > limit || n > 4198400 ==> n == 0 || Frame(input, limit) == Reading(Err(Oversized), input[4..]))
              && (0 < n <= limit && n <= 4198400 && 4 + n > |input| ==> Frame(input, limit) == Reading(Err(Interrupted), []))
              && (0 < n <= limit && n <= 4198400 && 4 + n <= |input| ==>
                    Frame(input, limit) == Reading(Ok(input[4..4 + n]), input[4 + n..]))
  {
    if |input| >= 4 {
      NumberMeaning(input[..4]);
      var n := Number(input[..4]);
      assert 4 + n <= |input| ==> input[4..][..n] == input[4..4 + n] && input[4..][n..] == input[4 + n..];
      hide Number;
    }
  }

  lemma NothingToRead()
    ensures Frame([], MAX_FRAME).value == Err(Interrupted)
  {
  }

  lemma CutFrame(payload: Bytes, cut: nat)
    requires Sendable(payload) && cut < |Framed(payload)|
    ensures Frame(Framed(payload)[..cut], MAX_FRAME).value == Err(Interrupted)
  {
    LengthRoundTrip(|payload|);
    var input := Framed(payload)[..cut];
    if cut >= 4 {
      assert input[..4] == Length(|payload|);
    }
  }

  // ---------------------------------------------------------------------------
  // Content in chunks

  /** What the receiver makes of the bytes to come, with some content already there. */
  function Content(input: Bytes, size: nat, content: Bytes): (r: Reading)
    ensures r.value.Ok? && |content| <= size ==> |r.value.value| <= size
    decreases |input|
  {
    var head := Exactly(input, 4);
    if head.value.Err? then head
    else
      var n := Number(head.value.value);
      if n == 0 then Reading(Ok(content), head.rest)
      else if n > MAX_CHUNK || |content| + n > size then Reading(Err(Oversized), head.rest)
      else
        var chunk := Exactly(head.rest, n);
        if chunk.value.Err? then chunk else Content(chunk.rest, size, content + chunk.value.value)
  }

  predicate Pieces(pieces: seq<Bytes>) {
    forall i :: 0 <= i < |pieces| ==> 1 <= |pieces[i]| <= MAX_CHUNK
  }

  /** The sender's pieces, as the source happened to hand them out. */
  function Pieced(pieces: seq<Bytes>): Bytes
    requires Pieces(pieces)
  {
    if pieces == [] then [] else Length(|pieces[0]|) + pieces[0] + Pieced(pieces[1..])
  }

  /** The pieces and the closing zero. */
  function Chunked(pieces: seq<Bytes>): Bytes
    requires Pieces(pieces)
  {
    Pieced(pieces) + Length(0)
  }

  function Joined(pieces: seq<Bytes>): Bytes {
    if pieces == [] then [] else pieces[0] + Joined(pieces[1..])
  }

  /** Content is only ever accepted as pieces of 1 to 65536 bytes, each behind its length, that
      together stay within the announced size, and a closing zero length; it is these pieces
      joined, and nothing after the zero is touched. */
  lemma {:induction false} ContentMeaning(input: Bytes, size: nat, before: Bytes) returns (pieces: seq<Bytes>)
    requires Content(input, size, before).value.Ok? && |before| <= size
    ensures forall i :: 0 <= i < |pieces| ==> 1 <= |pieces[i]| <= 65536
    ensures |before| + |Joined(pieces)| <= size
    ensures input == Chunked(pieces) + Content(input, size, before).rest
    ensures Content(input, size, before).value.value == before + Joined(pieces)
    decreases |input|
  {
    var head := input[..4];
    NumberMeaning(head);
    var n, tail := Number(head), input[4..];
    assert input == head + tail;
    hide Number, Length;
    if n == 0 {
      pieces := [];
      assert Pieced(pieces) + Length(0) == Length(0) && before + [] == before;
    } else {
      var chunk := tail[..n];
      var r := Content(tail[n..], size, before + chunk);
      assert Content(input, size, before) == r;
      hide Content;
      var more := ContentMeaning(tail[n..], size, before + chunk);
      pieces := [chunk] + more;
      PieceBefore(chunk, more, r.rest, before);
      assert tail == chunk + tail[n..];
    }
  }

  lemma PieceBefore(chunk: Bytes, more: seq<Bytes>, rest: Bytes, before: Bytes)
    requires Pieces(more) && 1 <= |chunk| <= MAX_CHUNK
    ensures Chunked([chunk] + more) + rest == Length(|chunk|) + (chunk + (Chunked(more) + rest))
    ensures before + Joined([chunk] + more) == before + chunk + Joined(more)
  {
    hide Length;
    var pieces := [chunk] + more;
    assert pieces[1..] == more;
    assert Pieced(pieces) == Length(|chunk|) + chunk + Pieced(more);
    assert Joined(pieces) == chunk + Joined(more);
  }

  /** After some pieces: a length over 65536 or beyond the announced size is refused, and one
      whose bytes do not all arrive, or of which not all four bytes do, ends the stream. */
  lemma {:induction false} ContentRefusals(pieces: seq<Bytes>, n: nat, tail: Bytes, size: nat, before: Bytes)
    requires Pieces(pieces) && |before| + |Joined(pieces)| <= size && 0 < n < 0x1_0000_0000
    ensures n > 65536 || |before| + |Joined(pieces)| + n > size ==>
              Content(Pieced(pieces) + (Length(n) + tail), size, before) == Reading(Err(Oversized), tail)
    ensures n <= 65536 && |before| + |Joined(pieces)| + n <= size && |tail| < n ==>
              Content(Pieced(pieces) + (Length(n) + tail), size, before) == Reading(Err(Interrupted), [])
    ensures |tail| < 4 ==> Content(Pieced(pieces) + tail, size, before) == Reading(Err(Interrupted), [])
    decreases |pieces|
  {
    hide Length, Number;
    if pieces == [] {
      LengthRoundTrip(n);
      var input := Length(n) + tail;
      assert input[..4] == Length(n) && input[4..] == tail;
      assert Pieced(pieces) + input == input && Pieced(pieces) + tail == tail;
    } else {
      hide Content;
      var p, rest := pieces[0], Pieced(pieces[1..]);
      assert Pieced(pieces) + (Length(n) + tail) == Length(|p|) + (p + (rest + (Length(n) + tail)));
      assert Pieced(pieces) + tail == Length(|p|) + (p + (rest + tail));
      OneChunk(p, rest + (Length(n) + tail), size, before);
      OneChunk(p, rest + tail, size, before);
      ContentRefusals(pieces[1..], n, tail, size, before + p);
    }
  }

  lemma OneChunk(p: Bytes, rest: Bytes, size: nat, before: Bytes)
    requires 1 <= |p| <= MAX_CHUNK && |before| + |p| <= size
    ensures Content(Length(|p|) + (p + rest), size, before) == Content(rest, size, before + p)
  {
    LengthRoundTrip(|p|);
    var input := Length(|p|) + (p + rest);
    hide Length, Number;
    assert input[..4] == Length(|p|) && input[4..] == p + rest;
    assert (p + rest)[..|p|] == p && (p + rest)[|p|..] == rest;
  }

  /** Content is reassembled exactly, however it was cut up, and nothing after it is touched. */
  lemma {:induction false} ContentRoundTrip(pieces: seq<Bytes>, tail: Bytes, size: nat, before: Bytes)
    requires Pieces(pieces)
    requires |before| + |Joined(pieces)| <= size
    ensures Content(Chunked(pieces) + tail, size, before) == Reading(Ok(before + Joined(pieces)), tail)
    decreases |pieces|
  {
    hide Length, Number, Content;
    if pieces == [] {
      NoChunk(tail, size, before);
      assert Chunked(pieces) == Length(0) && before + [] == before;
    } else {
      var p, rest := pieces[0], Chunked(pieces[1..]) + tail;
      assert Length(|p|) + p + Pieced(pieces[1..]) + Length(0) + tail == Length(|p|) + (p + (Pieced(pieces[1..]) + Length(0) + tail));
      OneChunk(p, rest, size, before);
      ContentRoundTrip(pieces[1..], tail, size, before + p);
      assert before + p + Joined(pieces[1..]) == before + Joined(pieces);
    }
  }

  /** A sender that fails after some pieces writes an error frame where the receiver reads
      chunk lengths: the frame is taken for one more chunk exactly when its payload fits, and
      then the stream ends; otherwise it is refused. Its code is never seen either way. */
  lemma {:induction false} ErrorInsideContent(pieces: seq<Bytes>, payload: Bytes, size: nat, before: Bytes)
    requires Pieces(pieces) && Sendable(payload)
    requires |before| + |Joined(pieces)| <= size
    ensures Content(Pieced(pieces) + Framed(payload), size, before).value
         == if |payload| <= MAX_CHUNK && |before| + |Joined(pieces)| + |payload| <= size then Err(Interrupted) else Err(Oversized)
    decreases |pieces|
  {
    hide Length, Number, Content;
    if pieces == [] {
      ErrorAtChunk(payload, size, before);
      assert Pieced(pieces) + Framed(payload) == Framed(payload);
    } else {
      var p, rest := pieces[0], Pieced(pieces[1..]) + Framed(payload);
      assert Pieced(pieces) + Framed(payload) == Length(|p|) + (p + rest);
      OneChunk(p, rest, size, before);
      ErrorInsideContent(pieces[1..], payload, size, before + p);
    }
  }

  lemma ErrorAtChunk(payload: Bytes, size: nat, before: Bytes)
    requires Sendable(payload) && |before| <= size
    ensures Content(Framed(payload), size, before).value
         == if |payload| <= MAX_CHUNK && |before| + |payload| <= size then Err(Interrupted) else Err(Oversized)
  {
    if |payload| <= MAX_CHUNK && |before| + |payload| <= size {
      assert payload + [] == payload;
      OneChunk(payload, [], size, before);
    } else {
      LengthRoundTrip(|payload|);
      var input := Framed(payload);
      assert input[..4] == Length(|payload|);
    }
    hide Length, Number;
  }

  lemma NoChunk(tail: Bytes, size: nat, before: Bytes)
    ensures Content(Length(0) + tail, size, before) == Reading(Ok(before), tail)
  {
    LengthRoundTrip(0);
    var input := Length(0) + tail;
    assert input[..4] == Length(0) && input[4..] == tail;
  }

  /** The sending loop over a source that returns short reads. */
  method SendContent(source: Stream, sink: Stream, size: nat) returns (c: Check, ghost pieces: seq<Bytes>)
    requires source != sink
    modifies source`incoming, sink`outgoing
    ensures Pieces(pieces)
    ensures c.Pass? <==> size <= |old(source.incoming)|
    ensures c.Pass? ==> Joined(pieces) == old(source.incoming)[..size] && sink.outgoing == old(sink.outgoing) + Chunked(pieces)
  {
    hide Length;
    var remaining := size;
    pieces := [];
    while remaining > 0
      invariant Pieces(pieces)
      invariant 0 <= remaining && |Joined(pieces)| + remaining == size
      invariant old(source.incoming) == Joined(pieces) + source.incoming
      invariant sink.outgoing == old(sink.outgoing) + Pieced(pieces)
      decreases remaining
    {
      var part := source.Receive(if remaining < MAX_CHUNK then remaining else MAX_CHUNK);
      if part == [] {
        assert |old(source.incoming)| == |Joined(pieces)|;
        return Fail(Error.Custody), pieces;
      }
      OneMorePiece(pieces, part);
      assert old(sink.outgoing) + Pieced(pieces) + (Length(|part|) + part) == old(sink.outgoing) + (Pieced(pieces) + (Length(|part|) + part));
      sink.outgoing := sink.outgoing + (Length(|part|) + part);
      pieces := pieces + [part];
      remaining := remaining - |part|;
    }
    assert old(sink.outgoing) + Pieced(pieces) + Length(0) == old(sink.outgoing) + Chunked(pieces);
    sink.outgoing := sink.outgoing + Length(0);
    assert old(source.incoming)[..size] == Joined(pieces);
    return Pass, pieces;
  }

  lemma {:induction false} OneMorePiece(pieces: seq<Bytes>, part: Bytes)
    requires Pieces(pieces) && 1 <= |part| <= MAX_CHUNK
    ensures Joined(pieces + [part]) == Joined(pieces) + part
    ensures Pieced(pieces + [part]) == Pieced(pieces) + (Length(|part|) + part)
    decreases |pieces|
  {
    hide Length;
    if pieces == [] {
      assert pieces + [part] == [part];
    } else {
      assert (pieces + [part])[1..] == pieces[1..] + [part];
      OneMorePiece(pieces[1..], part);
    }
  }
}
