/**
  PodCodec<T>: payload `[tag u32][T bytes]`, and the Recv loop that skips frames
  of other types, malformed frames and frames the reader had to drop.
 */
module PodCodec {
  import opened Basics
  import opened RingMath
  import opened RingBuffers
  import opened Framing
  import opened FrameReaders
  import opened FrameWriter

  /** The registered tag and sizeof(T). */
  datatype Pod = Pod(tag: u32, size: nat)

  function Encoded(pod: Pod, value: seq<byte>): seq<byte> { U32Bytes(pod.tag) + value }

  predicate CheckTag(pod: Pod, payload: seq<byte>) {
    |payload| >= TAG_SIZE && BytesU32(payload[..TAG_SIZE]) == pod.tag
  }

  /** DecodePayload followed by the size check of Recv and DecodeFrom. */
  function DecodePayload(pod: Pod, payload: seq<byte>): Option<seq<byte>> {
    if CheckTag(pod, payload) && |payload| - TAG_SIZE == pod.size then Some(payload[TAG_SIZE..]) else None
  }

  /** A payload is accepted exactly when it is the encoding of a value of the right size. */
  lemma DecodePayloadIff(pod: Pod, payload: seq<byte>, value: seq<byte>)
    requires |value| == pod.size
    ensures DecodePayload(pod, payload) == Some(value) <==> payload == Encoded(pod, value)
  {
    if payload == Encoded(pod, value) {
      assert payload[..TAG_SIZE] == U32Bytes(pod.tag) && payload[TAG_SIZE..] == value;
      U32RoundTrip(pod.tag);
    }
    if DecodePayload(pod, payload) == Some(value) {
      U32Unique(payload[..TAG_SIZE]);
      assert payload == payload[..TAG_SIZE] + payload[TAG_SIZE..];
    }
  }

  /**
    Send and SendBatch write the tag, then the object: the frame goes in as a whole
    exactly when it fits the free space and the object fits a single write.
   */
  lemma SendIff(pod: Pod, value: seq<byte>, cap: nat, w: nat, snap: nat, seqNo: u32)
    requires w <= snap + cap && 1024 <= cap && |value| == pod.size
    requires HEADER_SIZE + TAG_SIZE + pod.size < TWO_32
    ensures Attempt(cap, w, snap, TAG_SIZE + pod.size, seqNo, Copies([U32Bytes(pod.tag), value]), false) ==
      if w + HEADER_SIZE + TAG_SIZE + pod.size <= snap + cap && pod.size <= cap / 2
      then Some(FrameBytes(Frame(seqNo, Encoded(pod, value)))) else None
  {
    var pieces := [U32Bytes(pod.tag), value];
    assert Joined(pieces) == Encoded(pod, value) by {
      assert pieces[1..] == [value] && [value][1..] == [];
      assert Joined([value]) == value + [] == value;
    }
    assert AllSmall(pieces, cap / 2) <==> pod.size <= cap / 2 by {
      assert pieces[0] == U32Bytes(pod.tag) && pieces[1] == value;
    }
    AttemptPieces(cap, w, snap, seqNo, pieces);
  }

  // ---------------------------------------------------------------------
  // What Recv is to do with a list of frames
  // ---------------------------------------------------------------------

  /** The frame at `pos` reaches the caller: not dropped by the reader, right tag and size. */
  predicate Accepted(pod: Pod, cap: nat, bufSize: u32, pos: nat, f: Frame)
    requires cap >= 1
  {
    OutcomeAt(cap, bufSize, pos, f).Delivered? && DecodePayload(pod, f.body).Some?
  }

  /** Values of repeated Recv calls on a list of frames that starts at `pos`. */
  function Values(pod: Pod, cap: nat, bufSize: u32, pos: nat, fs: seq<Frame>): seq<seq<byte>>
    requires cap >= 1
    decreases |fs|
  {
    if fs == [] then []
    else
      var rest := Values(pod, cap, bufSize, pos + FrameSize(fs[0]), fs[1..]);
      if Accepted(pod, cap, bufSize, pos, fs[0]) then [DecodePayload(pod, fs[0].body).value] + rest else rest
  }

  /** The values sent with the right tag and size: no ring, no positions, no buffer. */
  function Matching(pod: Pod, fs: seq<Frame>): seq<seq<byte>> {
    if fs == [] then []
    else
      var rest := Matching(pod, fs[1..]);
      match DecodePayload(pod, fs[0].body) case Some(v) => [v] + rest case None => rest
  }

  lemma {:induction false} ValuesAreMatching(pod: Pod, cap: nat, bufSize: u32, pos: nat, fs: seq<Frame>)
    requires cap >= 1 && TAG_SIZE + pod.size <= bufSize
    ensures Values(pod, cap, bufSize, pos, fs) == Matching(pod, fs)
    decreases |fs|
  {
    if fs != [] {
      ValuesAreMatching(pod, cap, bufSize, pos + FrameSize(fs[0]), fs[1..]);
    }
  }

  /** Recv gets exactly the matching values out of these frames. */
  ghost predicate FilterOn(pod: Pod, cap: nat, bufSize: u32, pos: nat, fs: seq<Frame>)
    requires cap >= 1
  {
    AllFit(cap, fs) ==> Values(pod, cap, bufSize, pos, fs) == Matching(pod, fs)
  }

  /**
    Recv is a filter on every stream exactly when a value fits the reader's
    fallback buffer, or is too large for the ring anyway.
   */
  lemma FilterIff(pod: Pod, cap: nat, bufSize: u32)
    requires 1024 <= cap < TWO_32
    ensures (forall pos, fs :: FilterOn(pod, cap, bufSize, pos, fs)) <==>
      TAG_SIZE + pod.size <= bufSize || HEADER_SIZE + TAG_SIZE + pod.size > cap
  {
    if TAG_SIZE + pod.size <= bufSize {
      forall pos: nat, fs
        ensures FilterOn(pod, cap, bufSize, pos, fs)
      {
        ValuesAreMatching(pod, cap, bufSize, pos, fs);
      }
    } else if HEADER_SIZE + TAG_SIZE + pod.size > cap {
      forall pos: nat, fs
        ensures FilterOn(pod, cap, bufSize, pos, fs)
      {
        if AllFit(cap, fs) {
          NothingMatches(pod, cap, bufSize, pos, fs);
        }
      }
    } else {
      LostFrame(pod, cap, bufSize);
    }
  }

  /** A frame that fits the ring but not the buffer is lost when it starts in the last cell. */
  lemma LostFrame(pod: Pod, cap: nat, bufSize: u32)
    requires 1024 <= cap < TWO_32 && TAG_SIZE + pod.size > bufSize && HEADER_SIZE + TAG_SIZE + pod.size <= cap
    ensures exists pos, fs :: !FilterOn(pod, cap, bufSize, pos, fs)
  {
    var value: seq<byte> := seq(pod.size, _ => 0);
    var f := Frame(0, Encoded(pod, value));
    DecodePayloadIff(pod, f.body, value);
    assert !Accepted(pod, cap, bufSize, cap - 1, f);
    assert [f][1..] == [] && [f][0] == f;
    assert Values(pod, cap, bufSize, cap - 1, [f]) == [];
    assert Matching(pod, [f]) == [value] + Matching(pod, []);
    assert !FilterOn(pod, cap, bufSize, cap - 1, [f]);
  }

  lemma {:induction false} NothingMatches(pod: Pod, cap: nat, bufSize: u32, pos: nat, fs: seq<Frame>)
    requires cap >= 1 && HEADER_SIZE + TAG_SIZE + pod.size > cap && AllFit(cap, fs)
    ensures Values(pod, cap, bufSize, pos, fs) == Matching(pod, fs) == []
    decreases |fs|
  {
    if fs != [] {
      NothingMatches(pod, cap, bufSize, pos + FrameSize(fs[0]), fs[1..]);
    }
  }

  // ---------------------------------------------------------------------
  // The code
  // ---------------------------------------------------------------------

  /** The bytes behind the frame held by the reader are the frames `fs`. */
  ghost predicate Aligned(reader: FrameReader, ring: RingBuf, fs: seq<Frame>)
    reads reader, ring, ring.data
  {
    && reader.Ready(ring) && AllFit(ring.cap, fs)
    && ring.Contents()[reader.pendingCommit..] == Serialize(fs)
  }

  /** Stream position of the first of these frames. */
  ghost function Position(reader: FrameReader, ring: RingBuf): nat
    reads reader, ring
  {
    ring.consumed + reader.pendingCommit
  }

  /** TryRecv on frames: -1 when there are none, else the first one, as OutcomeAt decides. */
  method TryRecvFrame(reader: FrameReader, ring: RingBuf, ghost fs: seq<Frame>)
      returns (rc: int, payload: Payload, len: u32)
    requires Aligned(reader, ring, fs)
    modifies reader, reader.buf, ring`readPos, ring`consumed
    ensures Aligned(reader, ring, if fs == [] then [] else fs[1..])
    ensures ring.consumed == old(Position(reader, ring))
    ensures fs == [] ==> rc == -1 && reader.pendingCommit == 0
    ensures fs != [] ==>
      && reader.pendingCommit == FrameSize(fs[0])
      && rc == (if OutcomeAt(ring.cap, reader.buf.Length, ring.consumed, fs[0]).Dropped? then -2 else 0)
      && (rc == 0 ==> len == |fs[0].body| && reader.PayloadBytes(ring, payload, len) == fs[0].body
                      && reader.lastSeq == fs[0].seqNo)
  {
    ghost var view := Serialize(fs);
    ghost var pos := Position(reader, ring);
    rc, payload, len := reader.TryRecv(ring);
    assert ring.Contents() == view && ring.consumed == pos;
    if fs == [] {
      assert view == [];
    } else {
      FirstFrame(ring.cap, reader.buf.Length, pos, fs);
    }
  }

  /** What the reader makes of a non-empty list of frames, and what is left behind the first. */
  lemma FirstFrame(cap: nat, bufSize: u32, pos: nat, fs: seq<Frame>)
    requires HEADER_SIZE <= cap && fs != [] && AllFit(cap, fs)
    ensures FrameSize(fs[0]) <= |Serialize(fs)| && Serialize(fs)[FrameSize(fs[0])..] == Serialize(fs[1..])
    ensures AllFit(cap, fs[1..])
    ensures Receive(cap, bufSize, CellOf(cap, pos), Serialize(fs)) ==
      if OutcomeAt(cap, bufSize, pos, fs[0]).Dropped? then TooLarge(FrameSize(fs[0]))
      else Received(fs[0], FrameSize(fs[0]))
  {
    SerializeCons(fs);
    ReceiveFrame(cap, bufSize, pos, fs[0], Serialize(fs));
  }

  /**
    Recv: the next value, or -1 with every frame consumed. It stops on every finite
    list of frames and never reports -3.
   */
  method Recv(pod: Pod, reader: FrameReader, ring: RingBuf, ghost fs: seq<Frame>)
      returns (rc: int, out: seq<byte>, ghost rest: seq<Frame>)
    requires Aligned(reader, ring, fs)
    modifies reader, reader.buf, ring`readPos, ring`consumed
    ensures Aligned(reader, ring, rest) && |rest| <= |fs|
    ensures (rc == 0 && |rest| < |fs|) || (rc == -1 && rest == [])
    ensures rc == 0 ==>
      Values(pod, ring.cap, reader.buf.Length, old(Position(reader, ring)), fs) ==
      [out] + Values(pod, ring.cap, reader.buf.Length, Position(reader, ring), rest)
    ensures rc != 0 ==> Values(pod, ring.cap, reader.buf.Length, old(Position(reader, ring)), fs) == []
  {
    rest := fs;
    out := [];
    ghost var cap, bufSize := ring.cap, reader.buf.Length;
    while true
      invariant Aligned(reader, ring, rest) && |rest| <= |fs|
      invariant Values(pod, cap, bufSize, Position(reader, ring), rest) ==
        Values(pod, cap, bufSize, old(Position(reader, ring)), fs)
      decreases |rest|
    {
      var skipped;
      ghost var pos := Position(reader, ring);
      rc, out, skipped := RecvOne(pod, reader, ring, rest);
      if rc == -1 || rc == -3 {
        return;
      }
      ValuesCons(pod, cap, bufSize, pos, Position(reader, ring), rest, skipped, out);
      rest := rest[1..];
      if !skipped {
        return;
      }
    }
  }

  /** A frame skipped adds nothing to the values to come, a frame taken its own value. */
  lemma ValuesCons(pod: Pod, cap: nat, bufSize: u32, pos: nat, next: nat, fs: seq<Frame>, skipped: bool, out: seq<byte>)
    requires cap >= 1 && fs != [] && next == pos + FrameSize(fs[0])
    requires skipped == !Accepted(pod, cap, bufSize, pos, fs[0])
    requires !skipped ==> DecodePayload(pod, fs[0].body) == Some(out)
    ensures var rest := Values(pod, cap, bufSize, next, fs[1..]);
      Values(pod, cap, bufSize, pos, fs) == if skipped then rest else [out] + rest
  {}

  /** One turn of the loop: a value, a frame discarded at once, or nothing there. */
  method RecvOne(pod: Pod, reader: FrameReader, ring: RingBuf, ghost fs: seq<Frame>)
      returns (rc: int, out: seq<byte>, skipped: bool)
    requires Aligned(reader, ring, fs)
    modifies reader, reader.buf, ring`readPos, ring`consumed
    ensures fs == [] ==> rc == -1 && Aligned(reader, ring, []) && Position(reader, ring) == old(Position(reader, ring))
    ensures fs != [] ==>
      && (rc == 0 || rc == -2) && Aligned(reader, ring, fs[1..])
      && Position(reader, ring) == old(Position(reader, ring)) + FrameSize(fs[0])
      && skipped == !Accepted(pod, ring.cap, reader.buf.Length, old(Position(reader, ring)), fs[0])
      && (skipped ==> reader.pendingCommit == 0)
      && (!skipped ==> rc == 0 && DecodePayload(pod, fs[0].body) == Some(out))
  {
    var payload, len;
    rc, payload, len := TryRecvFrame(reader, ring, fs);
    out, skipped := [], true;
    if rc == -1 || rc == -3 {
      return;
    }
    if rc == -2 {
      CommitHeld(reader, ring, fs[1..]);
      return;
    }
    var bytes := reader.PayloadBytes(ring, payload, len);
    var decoded := DecodePayload(pod, bytes);
    if decoded.None? {
      CommitHeld(reader, ring, fs[1..]);
      return;
    }
    out, skipped := decoded.value, false;
  }

  /** Commit moves nothing but the boundary between held and consumed bytes. */
  method CommitHeld(reader: FrameReader, ring: RingBuf, ghost fs: seq<Frame>)
    requires Aligned(reader, ring, fs)
    modifies reader`pendingCommit, ring`readPos, ring`consumed
    ensures Aligned(reader, ring, fs) && Position(reader, ring) == old(Position(reader, ring))
    ensures reader.pendingCommit == 0
  {
    ghost var held := reader.pendingCommit;
    ghost var view := ring.Contents();
    reader.Commit(ring);
    assert ring.Contents() == view[held..];
    assert ring.Contents()[0..] == ring.Contents();
  }

  /** Recv until -1: exactly the matching values, in order, when a value fits the buffer. */
  method RecvAll(pod: Pod, reader: FrameReader, ring: RingBuf, ghost fs: seq<Frame>) returns (outs: seq<seq<byte>>)
    requires Aligned(reader, ring, fs)
    modifies reader, reader.buf, ring`readPos, ring`consumed
    ensures outs == Values(pod, ring.cap, reader.buf.Length, old(Position(reader, ring)), fs)
    ensures TAG_SIZE + pod.size <= reader.buf.Length ==> outs == Matching(pod, fs)
  {
    outs := [];
    ghost var rest := fs;
    ghost var all := Values(pod, ring.cap, reader.buf.Length, Position(reader, ring), fs);
    while true
      invariant Aligned(reader, ring, rest)
      invariant outs + Values(pod, ring.cap, reader.buf.Length, Position(reader, ring), rest) == all
      decreases |rest|
    {
      var rc, out;
      ghost var before := outs;
      rc, out, rest := Recv(pod, reader, ring, rest);
      if rc != 0 { break; }
      outs := outs + [out];
      ConcatAssoc(before, [out], Values(pod, ring.cap, reader.buf.Length, Position(reader, ring), rest));
    }
    if TAG_SIZE + pod.size <= reader.buf.Length {
      ValuesAreMatching(pod, ring.cap, reader.buf.Length, old(Position(reader, ring)), fs);
    }
  }
}
