/** The wire format of the tunnel (ice.c): every message on the single
    reliable Transport stream is a frame
        [channel:1][payload length:2, big-endian][payload].
    `Decode` is the reference reading of a byte stream as a sequence of
    frames; the reassembly loop, Tunnel.Agent.Receive, is proved against it. */
module Frame {
  import opened Common

  /** ICE_MAX_CH: slots in the channel table; channel 0 is the control channel. */
  const MAX_CH := 50
  /** BUFFER_LEN: capacity of the reassembly buffer and of each channel's send buffer. */
  const BUFFER_LEN := 1550
  const HEADER_LEN := 3
  /** The largest payload a whole frame in a BUFFER_LEN buffer can carry. */
  const MAX_PAYLOAD := BUFFER_LEN - HEADER_LEN

  datatype Frame = Frame(channel: byte, payload: seq<byte>)

  /** The header and payload that iceSend and socketRecvCb write: the channel
      is a C `char`, so only its low octet is sent, and the length is cut to
      two octets. */
  function Encode(channel: int, payload: seq<byte>): (bytes: seq<byte>)
    ensures |bytes| == |payload| + HEADER_LEN
    ensures bytes[0] == Lo(channel)
    ensures bytes[HEADER_LEN..] == payload
  {
    [Lo(channel), Hi(|payload|), Lo(|payload|)] + payload
  }

  /** iceSend's report as written, for a payload of `msgLen` octets: it
      reaches the payload length as soon as one octet more than the payload
      was accepted, two short of the whole frame, and it is negative only
      when nothing was accepted. */
  function SendResultAsWritten(accepted: int, msgLen: nat): (r: int)
    ensures r >= msgLen <==> accepted >= msgLen + 1
    ensures msgLen + 1 <= accepted < msgLen + HEADER_LEN ==> r >= msgLen
    ensures r < 0 <==> accepted < 1
  {
    accepted - 1
  }

  /** A Map request is a 7-octet payload in a 10-octet frame. When the
      Transport accepts only 8 of them, iceSend as written reports 7, which
      its callers read as "the whole request went out". */
  lemma SendResultAsWrittenAcceptsPartial()
    ensures SendResultAsWritten(8, 7) >= 7 && 8 < 7 + HEADER_LEN
  {
  }

  /** iceSend's report, corrected: the payload octets accepted, so that it
      reaches the payload length exactly when the whole frame went out. */
  function SendResult(accepted: int, msgLen: nat): (r: int)
    requires -1 <= accepted <= msgLen + HEADER_LEN
    ensures r >= msgLen <==> accepted == msgLen + HEADER_LEN
    ensures r < 0 <==> accepted < HEADER_LEN
  {
    accepted - HEADER_LEN
  }

  /** The payload length a header declares, computed as the receiver does:
      the high octet is a (signed) `char` widened before the shift, so a high
      octet of 0x80 or more yields a negative length. */
  function DeclaredSize(hi: byte, lo: byte): (n: int)
    ensures n < 0 <==> hi >= 128
    ensures hi < 128 ==> n == Be16(hi, lo)
  {
    SignedChar(hi) * 256 + lo
  }

  /** A declared length the receiver accepts (the bound corrected to what the
      buffer can hold; see the Findings of README.md). */
  predicate SizeOk(n: int)
  {
    0 <= n <= MAX_PAYLOAD
  }

  /** Bytes that hold no whole frame yet and whose header, once complete, is acceptable. */
  predicate Incomplete(s: seq<byte>)
  {
    |s| < HEADER_LEN
    || (SizeOk(DeclaredSize(s[1], s[2])) && |s| < DeclaredSize(s[1], s[2]) + HEADER_LEN)
  }

  /** The frames read from a stream, the unfinished tail left over, and
      whether reading stopped at an unacceptable length (which discards the
      tail). */
  datatype Decoded = Decoded(frames: seq<Frame>, rest: seq<byte>, failed: bool)

  function Then(fs: seq<Frame>, d: Decoded): Decoded
  {
    d.(frames := fs + d.frames)
  }

  /** The stream starts with a whole frame of acceptable length. */
  predicate WholeAtFront(s: seq<byte>)
  {
    |s| >= HEADER_LEN && SizeOk(DeclaredSize(s[1], s[2])) && |s| >= DeclaredSize(s[1], s[2]) + HEADER_LEN
  }

  /** The frame at the front of the stream. */
  function FirstFrame(s: seq<byte>): Frame
    requires WholeAtFront(s)
  {
    Frame(s[0], s[HEADER_LEN..DeclaredSize(s[1], s[2]) + HEADER_LEN])
  }

  /** The bytes after the frame at the front of the stream. */
  function AfterFirst(s: seq<byte>): (t: seq<byte>)
    requires WholeAtFront(s)
    ensures |t| < |s|
  {
    s[DeclaredSize(s[1], s[2]) + HEADER_LEN..]
  }

  /** The reference reading of a byte stream as frames. */
  function Decode(s: seq<byte>): (d: Decoded)
    ensures d.failed ==> d.rest == []
    decreases |s|
  {
    if WholeAtFront(s) then Then([FirstFrame(s)], Decode(AfterFirst(s)))
    else if Incomplete(s) then Decoded([], s, false)
    else Decoded([], [], true)
  }

  /** What is left over after reading never holds a whole frame, and always
      fits the reassembly buffer. */
  lemma {:induction false} RestIncomplete(s: seq<byte>)
    ensures !Decode(s).failed ==> Incomplete(Decode(s).rest) && |Decode(s).rest| < BUFFER_LEN
    decreases |s|
  {
    if WholeAtFront(s) {
      RestIncomplete(AfterFirst(s));
    }
  }

  /** A whole frame at the front of a stream stays the first frame read,
      whatever bytes follow it. */
  lemma WholeAtFrontAppend(s: seq<byte>, t: seq<byte>)
    requires WholeAtFront(s)
    ensures WholeAtFront(s + t)
    ensures FirstFrame(s + t) == FirstFrame(s) && AfterFirst(s + t) == AfterFirst(s) + t
  {
    var n := DeclaredSize(s[1], s[2]);
    var st := s + t;
    assert st[0] == s[0] && st[1] == s[1] && st[2] == s[2];
    assert st[HEADER_LEN..n + HEADER_LEN] == s[HEADER_LEN..n + HEADER_LEN];
    assert st[n + HEADER_LEN..] == s[n + HEADER_LEN..] + t;
  }

  /** A frame on the wire followed by anything decodes as that frame first. */
  lemma {:induction false} DecodeEncoded(channel: int, payload: seq<byte>, t: seq<byte>)
    requires |payload| <= MAX_PAYLOAD
    ensures Decode(Encode(channel, payload) + t)
         == Then([Frame(Lo(channel), payload)], Decode(t))
  {
    var e := Encode(channel, payload);
    var n := |payload|;
    Be16RoundTrip(n);
    assert DeclaredSize(e[1], e[2]) == n;
    assert WholeAtFront(e);
    assert FirstFrame(e) == Frame(Lo(channel), payload);
    assert AfterFirst(e) == [];
    WholeAtFrontAppend(e, t);
    assert [] + t == t;
  }

  /** Frame header round trip: the receiver recovers the channel octet and
      the payload the sender framed. */
  lemma {:induction false} FrameRoundTrip(channel: int, payload: seq<byte>)
    requires |payload| <= MAX_PAYLOAD
    ensures Decode(Encode(channel, payload)) == Decoded([Frame(Lo(channel), payload)], [], false)
  {
    DecodeEncoded(channel, payload, []);
    assert Encode(channel, payload) + [] == Encode(channel, payload);
    assert Decode([]) == Decoded([], [], false);
  }

  /** The bytes of a sequence of frames, one after the other. */
  function EncodeAll(fs: seq<Frame>): (bytes: seq<byte>)
  {
    if fs == [] then [] else Encode(fs[0].channel, fs[0].payload) + EncodeAll(fs[1..])
  }

  /** One more frame at the end of a stream. */
  lemma {:induction false} EncodeAllSnoc(fs: seq<Frame>, f: Frame)
    ensures EncodeAll(fs + [f]) == EncodeAll(fs) + Encode(f.channel, f.payload)
  {
    if fs == [] {
      assert [] + [f] == [f];
      assert EncodeAll([f]) == Encode(f.channel, f.payload) + EncodeAll([]);
    } else {
      assert (fs + [f])[0] == fs[0] && (fs + [f])[1..] == fs[1..] + [f];
      EncodeAllSnoc(fs[1..], f);
      ConcatAssoc(Encode(fs[0].channel, fs[0].payload), EncodeAll(fs[1..]), Encode(f.channel, f.payload));
    }
  }

  /** A stream of framed messages decodes to exactly those messages. */
  lemma {:induction false} StreamRoundTrip(fs: seq<Frame>)
    requires forall k :: 0 <= k < |fs| ==> |fs[k].payload| <= MAX_PAYLOAD
    ensures Decode(EncodeAll(fs)) == Decoded(fs, [], false)
  {
    if fs == [] {
      assert Decode([]) == Decoded([], [], false);
    } else {
      StreamRoundTrip(fs[1..]);
      StreamStep(fs[0], fs[1..]);
      assert [fs[0]] + fs[1..] == fs;
    }
  }

  /** The inductive step of StreamRoundTrip: one more frame in front. */
  lemma StreamStep(f: Frame, rest: seq<Frame>)
    requires |f.payload| <= MAX_PAYLOAD
    requires Decode(EncodeAll(rest)) == Decoded(rest, [], false)
    ensures Decode(EncodeAll([f] + rest)) == Decoded([f] + rest, [], false)
  {
    var t := EncodeAll(rest);
    assert ([f] + rest)[0] == f && ([f] + rest)[1..] == rest;
    assert EncodeAll([f] + rest) == Encode(f.channel, f.payload) + t;
    DecodeEncoded(f.channel, f.payload, t);
    LoOfByte(f.channel);
  }

  /** Reading more bytes never changes the frames already read: the stream
      read as a whole equals what was read from its first part, followed by
      what is read from the leftover tail and the new bytes. */
  lemma {:induction false} DecodeAppend(s: seq<byte>, t: seq<byte>)
    requires !Decode(s).failed
    ensures Decode(s + t) == Then(Decode(s).frames, Decode(Decode(s).rest + t))
    decreases |s|
  {
    if WholeAtFront(s) {
      DecodeAppend(AfterFirst(s), t);
      DecodeAppendStep(s, t);
    } else {
      assert Decode(s) == Decoded([], s, false);
      assert Then([], Decode(s + t)) == Decode(s + t);
    }
  }

  /** The inductive step of DecodeAppend: a whole frame at the front, with
      the property known for the bytes after it. */
  lemma DecodeAppendStep(s: seq<byte>, t: seq<byte>)
    requires WholeAtFront(s)
    requires Decode(AfterFirst(s) + t)
          == Then(Decode(AfterFirst(s)).frames, Decode(Decode(AfterFirst(s)).rest + t))
    ensures Decode(s + t) == Then(Decode(s).frames, Decode(Decode(s).rest + t))
  {
    WholeAtFrontAppend(s, t);
    var f := FirstFrame(s);
    var tail := AfterFirst(s);
    var a := Decode(tail).frames;
    var r := Decode(Decode(tail).rest + t);
    var whole := Decode(s + t);
    assert whole.frames == [f] + (a + r.frames);
    assert whole.rest == r.rest && whole.failed == r.failed;
    assert Decode(s).frames == [f] + a && Decode(s).rest == Decode(tail).rest;
    ConcatAssoc([f], a, r.frames);
  }

  /** One step of reassembly: a whole frame at the front of the held bytes
      is read first, whatever bytes follow it. */
  lemma DecodeFront(s: seq<byte>, t: seq<byte>)
    requires WholeAtFront(s)
    ensures Decode(s + t) == Then([FirstFrame(s)], Decode(AfterFirst(s) + t))
  {
    WholeAtFrontAppend(s, t);
  }

  lemma ThenThen(a: seq<Frame>, b: seq<Frame>, d: Decoded)
    ensures Then(a, Then(b, d)) == Then(a + b, d)
  {
    ConcatAssoc(a, b, d.frames);
  }

  /** A complete header declaring an unacceptable length fails the reading. */
  lemma DecodeBadHeader(s: seq<byte>)
    requires |s| >= HEADER_LEN && !SizeOk(DeclaredSize(s[1], s[2]))
    ensures Decode(s) == Decoded([], [], true)
  {
  }

  /** What a receiver that gets the stream in pieces reads, piece by piece:
      an unacceptable length discards what is held and the rest of that
      piece, and reading starts afresh with the next piece. */
  function FeedAll(held: seq<byte>, chunks: seq<seq<byte>>): Decoded
    decreases |chunks|
  {
    if chunks == [] then Decoded([], held, false)
    else
      var d := Decode(held + chunks[0]);
      var next := FeedAll(if d.failed then [] else d.rest, chunks[1..]);
      Decoded(d.frames + next.frames, next.rest, d.failed || next.failed)
  }

  function Concat(chunks: seq<seq<byte>>): seq<byte>
  {
    if chunks == [] then [] else chunks[0] + Concat(chunks[1..])
  }

  /** Reassembly does not depend on how the stream is cut into pieces: read
      piece by piece it fails exactly when it fails read whole; without a
      failure both readings agree, and with one the whole reading's frames
      are the first frames of the piecewise one. */
  lemma {:induction false} ChunkIndependence(held: seq<byte>, chunks: seq<seq<byte>>)
    requires Incomplete(held)
    ensures FeedAll(held, chunks).failed == Decode(held + Concat(chunks)).failed
    ensures !FeedAll(held, chunks).failed ==> FeedAll(held, chunks) == Decode(held + Concat(chunks))
    ensures Decode(held + Concat(chunks)).frames <= FeedAll(held, chunks).frames
    decreases |chunks|, 1
  {
    if chunks == [] {
      assert held + [] == held;
      IncompleteDecodesToItself(held);
    } else if Decode(held + chunks[0]).failed {
      ChunkFails(held, chunks);
    } else {
      ChunkReads(held, chunks);
    }
  }

  /** The two readings of ChunkIndependence agree as it states. */
  predicate Agree(held: seq<byte>, chunks: seq<seq<byte>>)
  {
    var piecewise := FeedAll(held, chunks);
    var whole := Decode(held + Concat(chunks));
    piecewise.failed == whole.failed && (!piecewise.failed ==> piecewise == whole) &&
    whole.frames <= piecewise.frames
  }

  /** ChunkIndependence when the first piece makes the reading fail. */
  lemma ChunkFails(held: seq<byte>, chunks: seq<seq<byte>>)
    requires Incomplete(held) && chunks != [] && Decode(held + chunks[0]).failed
    ensures Agree(held, chunks)
  {
    var d := Decode(held + chunks[0]);
    var tail := Concat(chunks[1..]);
    var next := FeedAll([], chunks[1..]);
    ConcatFront(held, chunks);
    FailurePersists(held + chunks[0], tail);
    FeedAllFront(held, chunks);
    AgreeAfterFailure(d.frames, next, Decode(held + Concat(chunks)), FeedAll(held, chunks));
  }

  /** ChunkIndependence when the first piece is read without failure. */
  lemma ChunkReads(held: seq<byte>, chunks: seq<seq<byte>>)
    requires Incomplete(held) && chunks != [] && !Decode(held + chunks[0]).failed
    ensures Agree(held, chunks)
    decreases |chunks|, 0
  {
    var d := Decode(held + chunks[0]);
    var tail := Concat(chunks[1..]);
    ConcatFront(held, chunks);
    RestIncomplete(held + chunks[0]);
    DecodeAppend(held + chunks[0], tail);
    ChunkIndependence(d.rest, chunks[1..]);
    var next := FeedAll(d.rest, chunks[1..]);
    FeedAllFront(held, chunks);
    AgreeAfterRead(d.frames, Decode(d.rest + tail), next, Decode(held + Concat(chunks)), FeedAll(held, chunks));
  }

  /** The whole stream is what is held, the first piece, then the rest. */
  lemma ConcatFront(held: seq<byte>, chunks: seq<seq<byte>>)
    requires chunks != []
    ensures held + Concat(chunks) == (held + chunks[0]) + Concat(chunks[1..])
  {
    ConcatAssoc(held, chunks[0], Concat(chunks[1..]));
  }

  /** Feeding the pieces: the first one read after what is held, then the
      rest after what that leaves (nothing, after a failure). */
  lemma FeedAllFront(held: seq<byte>, chunks: seq<seq<byte>>)
    requires chunks != []
    ensures var d := Decode(held + chunks[0]);
      var next := FeedAll(if d.failed then [] else d.rest, chunks[1..]);
      FeedAll(held, chunks) == Decoded(d.frames + next.frames, next.rest, d.failed || next.failed)
  {
  }

  /** The readings agree once the first piece has failed both of them
      after the same frames. */
  lemma AgreeAfterFailure(first: seq<Frame>, next: Decoded, whole: Decoded, piecewise: Decoded)
    requires whole.failed && whole.frames == first
    requires piecewise == Decoded(first + next.frames, next.rest, true)
    ensures piecewise.failed == whole.failed && whole.frames <= piecewise.frames
  {
    PrefixOfConcat(first, [], next.frames);
    assert first + [] == first;
  }

  /** The readings agree once they agree on what follows the first piece's
      frames. */
  lemma AgreeAfterRead(first: seq<Frame>, inner: Decoded, next: Decoded, whole: Decoded, piecewise: Decoded)
    requires whole == Then(first, inner)
    requires piecewise == Decoded(first + next.frames, next.rest, next.failed)
    requires next.failed == inner.failed && (!next.failed ==> next == inner) && inner.frames <= next.frames
    ensures piecewise.failed == whole.failed && (!piecewise.failed ==> piecewise == whole)
    ensures whole.frames <= piecewise.frames
  {
    PrefixOfConcat(first, inner.frames, next.frames);
  }

  lemma PrefixOfConcat<T>(x: seq<T>, y: seq<T>, z: seq<T>)
    requires y <= z
    ensures x + y <= x + z
  {
    assert (x + z)[..|x + y|] == x + y;
  }

  lemma IncompleteDecodesToItself(s: seq<byte>)
    requires Incomplete(s)
    ensures Decode(s) == Decoded([], s, false)
  {
  }

  /** Once the stream holds an unacceptable length, more bytes add no frame. */
  lemma {:induction false} FailurePersists(s: seq<byte>, t: seq<byte>)
    requires Decode(s).failed
    ensures Decode(s + t).frames == Decode(s).frames && Decode(s + t).failed
    decreases |s|
  {
    if WholeAtFront(s) {
      WholeAtFrontAppend(s, t);
      FailurePersists(AfterFirst(s), t);
    } else {
      assert |s| >= HEADER_LEN && !SizeOk(DeclaredSize(s[1], s[2]));
      var st := s + t;
      assert st[1] == s[1] && st[2] == s[2];
    }
  }

  // ---------------------------------------------------------------- routing

  datatype Route = Control | Data(channel: int) | Dropped

  /** Where the receiver sends a frame, by its channel octet read as a
      signed `char`: 0 is the control channel, 1..49 are data channels,
      anything else (50..127 and the negative values) is dropped. */
  function RouteOf(channel: byte): (r: Route)
    ensures r.Control? <==> channel == 0
    ensures r.Data? <==> 1 <= channel < MAX_CH
    ensures r.Data? ==> r.channel == channel
    ensures r.Dropped? <==> channel >= MAX_CH
  {
    var ch := SignedChar(channel);
    if ch == 0 then Control else if 0 < ch < MAX_CH then Data(ch) else Dropped
  }

  // ---------------------------------------------------------------- the bound as written

  /** The length test of ice.c:575 as written: only lengths above BUFFER_LEN
      (or negative) are refused. */
  predicate SizeOkAsWritten(n: int)
  {
    !(n > BUFFER_LEN || n < 0)
  }

  /** How many bytes of an arrival of `len` bytes the loop copies when `held`
      bytes are already in the buffer. */
  function CopyCount(held: int, len: nat): (c: nat)
    requires 0 <= held <= BUFFER_LEN
    ensures c <= len && held + c <= BUFFER_LEN
    ensures c < len ==> held + c == BUFFER_LEN
  {
    if len <= BUFFER_LEN - held then len else BUFFER_LEN - held
  }

  /** A declared length of 1548, 1549 or 1550 passes the test as written, but
      such a frame never completes: the buffer can never hold length + 3
      bytes, and once it is full every later arrival is copied in at zero
      bytes and thrown away, so the tunnel stalls for good. */
  lemma OversizeStallsAsWritten(hi: byte, lo: byte, held: int, len: nat)
    requires SizeOkAsWritten(DeclaredSize(hi, lo)) && !SizeOk(DeclaredSize(hi, lo))
    requires 0 <= held <= BUFFER_LEN
    ensures MAX_PAYLOAD < DeclaredSize(hi, lo) <= BUFFER_LEN
    ensures held < DeclaredSize(hi, lo) + HEADER_LEN
    ensures held == BUFFER_LEN ==> CopyCount(held, len) == 0
  {
  }

  /** The header [1, 0x06, 0x0C] declares 1548 bytes: accepted as written, refused by the corrected test. */
  lemma OversizeExample()
    ensures DeclaredSize(0x06, 0x0C) == 1548
    ensures SizeOkAsWritten(1548) && !SizeOk(1548)
  {
  }
}
