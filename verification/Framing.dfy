/** Frames over a byte stream: a header of a length and an id, then that many bytes. */
module Framing {
  import opened Bytes

  /** The size of a header. */
  const HEADER: nat := 4

  datatype Header = Header(len: nat, id: nat)

  datatype Frame = Frame(id: nat, payload: seq<byte>)

  /** Both fields as 16-bit integers, high byte first. */
  function Serialize(h: Header): (b: seq<byte>)
    requires h.len < 0x1_0000 && h.id < 0x1_0000
    ensures |b| == HEADER && Deserialize(b) == h
    ensures h.len == 0x100 * b[0] as int + b[1] as int && h.id == 0x100 * b[2] as int + b[3] as int
  {
    [h.len / 256, h.len % 256, h.id / 256, h.id % 256]
  }

  function Deserialize(b: seq<byte>): (h: Header)
    requires |b| >= HEADER
    ensures h.len < 0x1_0000 && h.id < 0x1_0000
  {
    Header(b[0] as int * 256 + b[1] as int, b[2] as int * 256 + b[3] as int)
  }

  lemma {:induction false} SerializeDeserialized(b: seq<byte>)
    requires |b| == HEADER
    ensures Serialize(Deserialize(b)) == b
  {
  }

  /** A whole frame is at the start of `b`. */
  predicate HasFrame(b: seq<byte>) {
    |b| >= HEADER && |b| >= HEADER + Deserialize(b).len
  }

  function FrameEnd(b: seq<byte>): (end: nat)
    requires HasFrame(b)
    ensures HEADER <= end <= |b|
  {
    HEADER + Deserialize(b).len
  }

  function FrameAt(b: seq<byte>): Frame
    requires HasFrame(b)
  {
    Frame(Deserialize(b).id, b[HEADER..FrameEnd(b)])
  }

  /** The frames of a whole stream. */
  function FramesOf(b: seq<byte>): seq<Frame>
    decreases |b|
  {
    if !HasFrame(b) then [] else [FrameAt(b)] + FramesOf(b[FrameEnd(b)..])
  }

  /** What follows the last whole frame of a stream. */
  function RestOf(b: seq<byte>): seq<byte>
    decreases |b|
  {
    if !HasFrame(b) then b else RestOf(b[FrameEnd(b)..])
  }

  // ----- chunks

  /** More bytes after a whole frame leave it as it is. */
  lemma {:induction false} FrameStays(a: seq<byte>, b: seq<byte>)
    requires HasFrame(a)
    ensures HasFrame(a + b) && FrameEnd(a + b) == FrameEnd(a) && FrameAt(a + b) == FrameAt(a)
    ensures (a + b)[FrameEnd(a)..] == a[FrameEnd(a)..] + b
  {
  }

  /** Parsing a stream in two parts, carrying what is left of the first, is parsing it whole. */
  lemma {:induction false} ParseInParts(a: seq<byte>, b: seq<byte>)
    ensures FramesOf(a + b) == FramesOf(a) + FramesOf(RestOf(a) + b)
    ensures RestOf(a + b) == RestOf(RestOf(a) + b)
    decreases |a|
  {
    if HasFrame(a) {
      FrameStays(a, b);
      ParseInParts(a[FrameEnd(a)..], b);
    }
  }

  /** What is left never holds a whole frame. */
  lemma {:induction false} RestIncomplete(b: seq<byte>)
    ensures !HasFrame(RestOf(b)) && FramesOf(RestOf(b)) == []
    decreases |b|
  {
    if HasFrame(b) {
      RestIncomplete(b[FrameEnd(b)..]);
    }
  }

  /** `drain_frames`: how much of `buf` its whole frames take. */
  method DrainFrames(buf: seq<byte>) returns (consumed: nat, frames: seq<Frame>)
    ensures consumed <= |buf| && buf[consumed..] == RestOf(buf) && frames == FramesOf(buf)
  {
    hide Deserialize;
    var left := buf;
    frames := [];
    while HasFrame(left)
      invariant |left| <= |buf| && left == buf[|buf| - |left|..]
      invariant RestOf(left) == RestOf(buf) && frames + FramesOf(left) == FramesOf(buf)
      decreases |left|
    {
      frames := frames + [FrameAt(left)];
      left := left[FrameEnd(left)..];
    }
    consumed := |buf| - |left|;
  }

  /** The receiving side of a session. */
  class Receiver {
    /** The start of a frame not wholly received. */
    var carry: seq<byte>
    var frames: seq<Frame>
    ghost var received: seq<byte>

    /** However it was chunked, the stream has been parsed as a whole. */
    ghost predicate Valid()
      reads this
    {
      frames == FramesOf(received) && carry == RestOf(received)
    }

    constructor ()
      ensures Valid() && received == []
    {
      carry, frames, received := [], [], [];
    }

    /** One turn of `recv_loop`. */
    method Receive(chunk: seq<byte>)
      requires Valid()
      modifies this
      ensures Valid() && received == old(received) + chunk && old(frames) <= frames
      ensures !HasFrame(carry)
    {
      hide FramesOf, RestOf;
      ParseInParts(received, chunk);
      RestIncomplete(received + chunk);
      var consumed, more;
      if carry == [] {
        assert carry + chunk == chunk;
        consumed, more := DrainFrames(chunk);
        carry := chunk[consumed..];
      } else {
        carry := carry + chunk;
        consumed, more := DrainFrames(carry);
        carry := carry[consumed..];
      }
      frames := frames + more;
      received := received + chunk;
    }
  }

  /** Any two ways of chunking one stream are received alike. */
  method ReceiveAll(chunks: seq<seq<byte>>) returns (r: Receiver)
    ensures fresh(r) && r.Valid() && r.received == Flat(chunks)
    ensures r.frames == FramesOf(Flat(chunks)) && r.carry == RestOf(Flat(chunks))
  {
    r := new Receiver();
    for i := 0 to |chunks|
      invariant r.Valid() && fresh(r) && r.received == Flat(chunks[..i])
    {
      r.Receive(chunks[i]);
      FlatStep(chunks, i);
    }
    assert chunks[..|chunks|] == chunks;
  }

  // ----- what is sent is received

  predicate FrameOk(f: Frame) {
    f.id < 0x1_0000 && |f.payload| < 0x1_0000
  }

  function Encode(f: Frame): seq<byte>
    requires FrameOk(f)
  {
    Serialize(Header(|f.payload|, f.id)) + f.payload
  }

  function Stream(frames: seq<Frame>): seq<byte>
    requires forall k :: 0 <= k < |frames| ==> FrameOk(frames[k])
  {
    if frames == [] then [] else Encode(frames[0]) + Stream(frames[1..])
  }

  lemma {:induction false} EncodedFrame(f: Frame, rest: seq<byte>)
    requires FrameOk(f)
    ensures HasFrame(Encode(f) + rest) && FrameAt(Encode(f) + rest) == f && (Encode(f) + rest)[FrameEnd(Encode(f) + rest)..] == rest
  {
  }

  /** Whatever whole frames are sent, followed by part of another, come out in order. */
  lemma {:induction false} SentReceived(frames: seq<Frame>, part: seq<byte>)
    requires (forall k :: 0 <= k < |frames| ==> FrameOk(frames[k])) && !HasFrame(part)
    ensures FramesOf(Stream(frames) + part) == frames && RestOf(Stream(frames) + part) == part
  {
    hide Encode, HasFrame, FrameAt, FrameEnd;
    if frames == [] {
      assert Stream(frames) + part == part;
    } else {
      var rest := Stream(frames[1..]) + part;
      assert Stream(frames) + part == Encode(frames[0]) + rest;
      EncodedFrame(frames[0], rest);
      SentReceived(frames[1..], part);
    }
  }

  lemma {:induction false} FrameBytes(b: seq<byte>)
    requires HasFrame(b)
    ensures FrameOk(FrameAt(b)) && Encode(FrameAt(b)) + b[FrameEnd(b)..] == b
  {
  }

  lemma {:induction false} Unfolded(b: seq<byte>)
    ensures HasFrame(b) ==> FramesOf(b) == [FrameAt(b)] + FramesOf(b[FrameEnd(b)..]) && RestOf(b) == RestOf(b[FrameEnd(b)..])
    ensures !HasFrame(b) ==> FramesOf(b) == [] && RestOf(b) == b && Stream([]) == []
  {
  }

  lemma {:induction false} StreamFirst(first: Frame, later: seq<Frame>)
    requires FrameOk(first) && forall k :: 0 <= k < |later| ==> FrameOk(later[k])
    ensures Stream([first] + later) == Encode(first) + Stream(later)
  {
    assert ([first] + later)[1..] == later;
  }

  /** The frames and what is left are the stream: no byte is lost or added. */
  lemma {:induction false} NothingLost(b: seq<byte>)
    ensures forall k :: 0 <= k < |FramesOf(b)| ==> FrameOk(FramesOf(b)[k])
    ensures Stream(FramesOf(b)) + RestOf(b) == b
    decreases |b|
  {
    hide HasFrame, FrameAt, Encode, FrameOk, Stream, FrameEnd, FramesOf, RestOf;
    Unfolded(b);
    if HasFrame(b) {
      var first, rest := FrameAt(b), b[FrameEnd(b)..];
      NothingLost(rest);
      FrameBytes(b);
      StreamFirst(first, FramesOf(rest));
      JoinTwice(Encode(first), Stream(FramesOf(rest)), RestOf(rest));
    }
  }
}
