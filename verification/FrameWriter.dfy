/**
  SendFrame, SendFrameBatch and the two Send overloads: a frame is written as a
  header and whatever the payload callback writes, and rolled back unless exactly
  the announced number of bytes came in.

  A callback is any list of writes, cut short by an exception or not.
 */
module FrameWriter {
  import opened Basics
  import opened RingMath
  import opened RingBuffers
  import opened Framing

  /** One direction of a RingChannel: the ring and the peer's eventfd counter. */
  class Channel {
    const ring: RingBuf
    var notified: nat

    constructor (ring: RingBuf)
      ensures this.ring == ring && notified == 0
    {
      this.ring := ring;
      notified := 0;
    }

    method NotifyPeer()
      modifies this
      ensures notified == old(notified) + 1
    {
      notified := notified + 1;
    }
  }

  /**
    ChannelBatchWriter::Flush: notifies exactly when bytes were published, unless
    count_ has overflowed: 2^31 writes of one byte, in a ring of the largest capacity.
   */
  method FlushAndNotify(batch: BatchWriter, ch: Channel) returns (n: int)
    requires batch.Valid() && batch.CountOk() && ch.ring == batch.ring
    modifies batch`wStart, batch`count, batch`pending, batch`writes, batch.ring`writePos, batch.ring`stream, ch
    ensures batch.Valid() && batch.CountOk() && batch.pending == []
    ensures ch.ring.stream == old(ch.ring.stream) + old(batch.pending)
    ensures n == Int32(old(batch.writes)) && old(batch.writes) <= TWO_31
    ensures old(batch.writes) == TWO_31 ==> ch.ring.cap == TWO_31
    ensures ch.notified == old(ch.notified) +
      if ch.ring.stream != old(ch.ring.stream) && old(batch.writes) < TWO_31 then 1 else 0
  {
    n := batch.Flush();
    if n > 0 {
      ch.NotifyPeer();
    }
  }

  // ---------------------------------------------------------------------
  // One attempt to write a frame, as a function
  // ---------------------------------------------------------------------

  /** The header's TryWrite; its result is ignored by the code. */
  function HeaderPart(cap: nat, w: nat, snap: nat, payloadLen: u32, seqNo: u32): (r: seq<byte>)
    requires w <= snap + cap
    ensures w + |r| <= snap + cap
  {
    if Accepts(cap, w, snap, HEADER_SIZE) then Header(payloadLen, seqNo) else []
  }

  /** Everything written for a frame before the final check. */
  function Emitted(cap: nat, w: nat, snap: nat, payloadLen: u32, seqNo: u32, callback: seq<Write>): (r: seq<byte>)
    requires w <= snap + cap
    ensures w + |r| <= snap + cap
  {
    var head := HeaderPart(cap, w, snap, payloadLen, seqNo);
    head + Written(cap, w + |head|, snap, callback)
  }

  /** The bytes an attempt adds to the batch, None when it fails or is rolled back. */
  function Attempt(cap: nat, w: nat, snap: nat, payloadLen: u32, seqNo: u32, callback: seq<Write>, throws: bool)
      : (r: Option<seq<byte>>)
    requires w <= snap + cap
  {
    var frameSize := Size32(payloadLen);
    if snap + cap - w < frameSize then None
    else
      var bytes := Emitted(cap, w, snap, payloadLen, seqNo, callback);
      if throws || |bytes| != frameSize then None else Some(bytes)
  }

  /** A complete frame that announces the given length. */
  ghost predicate IsFrame(bytes: seq<byte>, payloadLen: u32, seqNo: u32) {
    exists body: seq<byte> :: |body| == payloadLen && bytes == FrameBytes(Frame(seqNo, body))
  }

  /** While payload_len + 8 stays below 2^32 an accepted attempt is a complete frame. */
  lemma AttemptIsFrame(cap: nat, w: nat, snap: nat, payloadLen: u32, seqNo: u32, callback: seq<Write>, throws: bool)
    requires w <= snap + cap && cap >= 1024
    requires payloadLen + HEADER_SIZE < TWO_32
    ensures var r := Attempt(cap, w, snap, payloadLen, seqNo, callback, throws);
      r.Some? ==> IsFrame(r.value, payloadLen, seqNo)
  {
    var r := Attempt(cap, w, snap, payloadLen, seqNo, callback, throws);
    if r.Some? {
      WrapSmall(HEADER_SIZE + payloadLen);
      var body := Written(cap, w + HEADER_SIZE, snap, callback);
      assert r.value == FrameBytes(Frame(seqNo, body));
    }
  }

  /**
    Exactly when no callback whatsoever can get anything but a complete frame
    accepted: frame_size is computed in 32 bits, and an announced length of
    2^32 - 8 or more goes wrong when the space left is too small for the header
    but not for the wrapped frame size.
   */
  lemma AtomicIff(cap: nat, w: nat, snap: nat, payloadLen: u32, seqNo: u32)
    requires w <= snap + cap && cap >= 1024
    ensures
      (forall callback, throws ::
         var r := Attempt(cap, w, snap, payloadLen, seqNo, callback, throws);
         r.Some? ==> IsFrame(r.value, payloadLen, seqNo))
      <==> !WrapGap(snap + cap - w, payloadLen)
  {
    var room := snap + cap - w;
    if WrapGap(room, payloadLen) {
      var n := payloadLen + HEADER_SIZE - TWO_32;
      WrapGapBreaks(cap, w, snap, payloadLen, seqNo);
      var r := Attempt(cap, w, snap, payloadLen, seqNo, Junk(n), false);
      assert r.Some? && !IsFrame(r.value, payloadLen, seqNo);
    } else {
      forall callback, throws
        ensures var r := Attempt(cap, w, snap, payloadLen, seqNo, callback, throws);
          r.Some? ==> IsFrame(r.value, payloadLen, seqNo)
      {
        if payloadLen + HEADER_SIZE < TWO_32 {
          AttemptIsFrame(cap, w, snap, payloadLen, seqNo, callback, throws);
        } else {
          assert Size32(payloadLen) == HEADER_SIZE + payloadLen - TWO_32 < HEADER_SIZE;
        }
      }
    }
  }

  /** A callback that writes n bytes in one piece, or nothing for n == 0. */
  function Junk(n: nat): seq<Write> {
    if n == 0 then [] else [Copied(seq(n, _ => 0))]
  }

  lemma WrapGapBreaks(cap: nat, w: nat, snap: nat, payloadLen: u32, seqNo: u32)
    requires w <= snap + cap && cap >= 1024 && WrapGap(snap + cap - w, payloadLen)
    ensures var n := payloadLen + HEADER_SIZE - TWO_32;
      var r := Attempt(cap, w, snap, payloadLen, seqNo, Junk(n), false);
      r.Some? && |r.value| == n && !IsFrame(r.value, payloadLen, seqNo)
  {
    var n := payloadLen + HEADER_SIZE - TWO_32;
    assert Size32(payloadLen) == n;
    assert HeaderPart(cap, w, snap, payloadLen, seqNo) == [];
    var bytes := Written(cap, w, snap, Junk(n));
    if n > 0 {
      assert Junk(n)[1..] == [];
      assert Written(cap, w + n, snap, []) == [];
    }
    assert |bytes| == n && [] + bytes == bytes;
  }

  // ---------------------------------------------------------------------
  // The code
  // ---------------------------------------------------------------------

  /** Header and callback. */
  method WriteFrame(batch: BatchWriter, payloadLen: u32, seqNo: u32, callback: seq<Write>)
    requires batch.Valid() && batch.CountOk() && forall i :: 0 <= i < |callback| ==> |callback[i].bytes| < TWO_32
    modifies batch`w, batch`count, batch`pending, batch`writes, batch.ring.data
    ensures batch.Valid() && batch.CountOk()
    ensures batch.pending ==
      old(batch.pending) + Emitted(batch.ring.cap, old(batch.End()), batch.snap, payloadLen, seqNo, callback)
    ensures old(batch.pending) == [] ==> batch.writes < TWO_31
  {
    ghost var cap, start, queued := batch.ring.cap, batch.End(), batch.pending;
    ghost var head := HeaderPart(cap, start, batch.snap, payloadLen, seqNo);
    WriteHeader(batch, payloadLen, seqNo);
    ghost var mid := batch.End();
    WriteAll(batch, callback);
    EmittedIs(cap, start, mid, batch.snap, payloadLen, seqNo, callback);
    ConcatAssoc(queued, head, Written(cap, mid, batch.snap, callback));
  }

  /** The header's TryWrite. */
  method WriteHeader(batch: BatchWriter, payloadLen: u32, seqNo: u32)
    requires batch.Valid() && batch.CountOk()
    modifies batch`w, batch`count, batch`pending, batch`writes, batch.ring.data
    ensures batch.Valid() && batch.CountOk()
    ensures batch.pending ==
      old(batch.pending) + HeaderPart(batch.ring.cap, old(batch.End()), batch.snap, payloadLen, seqNo)
    ensures batch.Slack() >= HEADER_SIZE - 1 || batch.End() + HEADER_SIZE > batch.snap + batch.ring.cap
  {
    var hdr := Header(payloadLen, seqNo);
    var ignored := batch.TryWrite(Bytes(hdr), HEADER_SIZE);
    assert hdr[..HEADER_SIZE] == hdr;
  }

  lemma EmittedIs(
      cap: nat, w: nat, mid: nat, snap: nat, payloadLen: u32, seqNo: u32, callback: seq<Write>)
    requires w <= snap + cap && mid == w + |HeaderPart(cap, w, snap, payloadLen, seqNo)|
    ensures Emitted(cap, w, snap, payloadLen, seqNo, callback) ==
      HeaderPart(cap, w, snap, payloadLen, seqNo) + Written(cap, mid, snap, callback)
  {}

  /** SendFrameBatch. `threw` stands for the exception it passes on. */
  method SendFrameBatch(batch: BatchWriter, payloadLen: u32, seqNo: u32, callback: seq<Write>, throws: bool)
      returns (rc: int, threw: bool)
    requires batch.Valid() && batch.CountOk() && forall i :: 0 <= i < |callback| ==> |callback[i].bytes| < TWO_32
    modifies batch`w, batch`count, batch`pending, batch`writes, batch.ring.data
    ensures batch.Valid() && batch.CountOk()
    ensures
      var r := Attempt(batch.ring.cap, old(batch.End()), batch.snap, payloadLen, seqNo, callback, throws);
      if r.Some? then rc == 0 && !threw && batch.pending == old(batch.pending) + r.value
      else rc == -1 && batch.pending == old(batch.pending) && batch.writes == old(batch.writes)
    ensures rc != 0 ==> batch.count == old(batch.count)
    ensures threw == (throws && batch.snap + batch.ring.cap - old(batch.End()) >= Size32(payloadLen))
  {
    var frameSize := Size32(payloadLen);
    var free := batch.FreeBytes();
    if free < frameSize { return -1, false; }
    var before := batch.PendingBytes();
    var beforeCount := batch.count;
    ghost var beforeWrites := batch.writes;
    WriteFrame(batch, payloadLen, seqNo, callback);
    rc, threw := KeepOrRewind(batch, before, beforeCount, beforeWrites, frameSize, throws);
  }

  /** The end of SendFrameBatch: the batch keeps the frame, or is rewound to what it held before. */
  method KeepOrRewind(batch: BatchWriter, before: u64, beforeCount: int, ghost beforeWrites: nat, frameSize: u32,
                      throws: bool)
      returns (rc: int, threw: bool)
    requires batch.Valid() && before <= |batch.pending| && beforeCount == Int32(beforeWrites)
    modifies batch`w, batch`count, batch`pending, batch`writes
    ensures batch.Valid() && threw == throws
    ensures if !throws && |old(batch.pending)| - before == frameSize
            then rc == 0 && batch.pending == old(batch.pending) && batch.writes == old(batch.writes)
            else rc == -1 && batch.pending == old(batch.pending)[..before] && batch.writes == beforeWrites
  {
    if throws {
      batch.RewindTo(before, beforeCount, beforeWrites);
      return -1, true;
    }
    var now := batch.PendingBytes();
    WrapSmall(now - before);
    if Sub64(now, before) != frameSize {
      batch.RewindTo(before, beforeCount, beforeWrites);
      return -1, false;
    }
    return 0, false;
  }

  /** SendFrame: its own batch, published and notified on success, cancelled otherwise. */
  method SendFrame(ch: Channel, payloadLen: u32, seqNo: u32, callback: seq<Write>, throws: bool)
      returns (rc: int, threw: bool)
    requires ch.ring.Valid() && forall i :: 0 <= i < |callback| ==> |callback[i].bytes| < TWO_32
    modifies ch, ch.ring`writePos, ch.ring`stream, ch.ring.data
    ensures ch.ring.Valid()
    ensures
      var r := Attempt(ch.ring.cap, |old(ch.ring.stream)|, ch.ring.consumed, payloadLen, seqNo, callback, throws);
      if r.Some?
      then rc == 0 && !threw && ch.ring.stream == old(ch.ring.stream) + r.value
      else rc == -1 && ch.ring.stream == old(ch.ring.stream)
    ensures ch.notified == old(ch.notified) + if ch.ring.stream != old(ch.ring.stream) then 1 else 0
    ensures threw == (throws && ch.ring.cap - |old(ch.ring.Contents())| >= Size32(payloadLen))
  {
    var frameSize := Size32(payloadLen);
    var free := ch.ring.FreeSpace();
    if free < frameSize { return -1, false; }
    var batch := new BatchWriter(ch.ring);
    ghost var bytes := Emitted(ch.ring.cap, |ch.ring.stream|, ch.ring.consumed, payloadLen, seqNo, callback);
    WriteFrame(batch, payloadLen, seqNo, callback);
    assert batch.pending == bytes;
    rc, threw := FinishFrame(batch, ch, frameSize, throws);
  }

  /** The end of SendFrame: publish the batch if it holds exactly the frame. */
  method FinishFrame(batch: BatchWriter, ch: Channel, frameSize: u32, throws: bool) returns (rc: int, threw: bool)
    requires batch.Valid() && batch.CountOk() && batch.writes < TWO_31 && ch.ring == batch.ring
    modifies batch, ch, ch.ring`writePos, ch.ring`stream
    ensures ch.ring.Valid()
    ensures if !throws && |old(batch.pending)| == frameSize
            then rc == 0 && !threw && ch.ring.stream == old(ch.ring.stream) + old(batch.pending)
            else rc == -1 && threw == throws && ch.ring.stream == old(ch.ring.stream)
    ensures ch.notified == old(ch.notified) + if ch.ring.stream != old(ch.ring.stream) then 1 else 0
  {
    if throws {
      batch.Cancel();
      return -1, true;
    }
    var now := batch.PendingBytes();
    if now != frameSize {
      batch.Cancel();
      return -1, false;
    }
    var n := FlushAndNotify(batch, ch);
    return 0, false;
  }

  /** Send on a channel: one frame with this payload, or nothing. */
  method Send(ch: Channel, payload: seq<byte>, seqNo: u32) returns (rc: int)
    requires ch.ring.Valid() && |payload| < TWO_32
    modifies ch, ch.ring`writePos, ch.ring`stream, ch.ring.data
    ensures ch.ring.Valid()
    ensures rc == 0 <==>
      |payload| <= ch.ring.cap / 2 &&
      |old(ch.ring.stream)| + HEADER_SIZE + |payload| <= ch.ring.consumed + ch.ring.cap
    ensures rc == 0 ==> ch.ring.stream == old(ch.ring.stream) + FrameBytes(Frame(seqNo, payload))
    ensures rc != 0 ==> rc == -1 && ch.ring.stream == old(ch.ring.stream)
    ensures ch.notified == old(ch.notified) + if rc == 0 then 1 else 0
  {
    if |payload| > ch.ring.cap / 2 { return -1; }
    SendAttempt(ch.ring.cap, |ch.ring.stream|, ch.ring.consumed, payload, seqNo);
    var threw;
    rc, threw := SendFrame(ch, |payload|, seqNo, PayloadWrites(payload), false);
  }

  /** Send into a batch. */
  method SendBatch(batch: BatchWriter, payload: seq<byte>, seqNo: u32) returns (rc: int)
    requires batch.Valid() && batch.CountOk() && |payload| < TWO_32
    modifies batch`w, batch`count, batch`pending, batch`writes, batch.ring.data
    ensures batch.Valid() && batch.CountOk()
    ensures rc == 0 <==>
      |payload| <= batch.ring.cap / 2 && old(batch.End()) + HEADER_SIZE + |payload| <= batch.snap + batch.ring.cap
    ensures rc == 0 ==> batch.pending == old(batch.pending) + FrameBytes(Frame(seqNo, payload))
    ensures rc != 0 ==> rc == -1 && batch.pending == old(batch.pending) && batch.count == old(batch.count)
  {
    if |payload| > batch.ring.cap / 2 { return -1; }
    SendAttempt(batch.ring.cap, batch.End(), batch.snap, payload, seqNo);
    var threw;
    rc, threw := SendFrameBatch(batch, |payload|, seqNo, PayloadWrites(payload), false);
  }

  /** The callback of Send. */
  function PayloadWrites(payload: seq<byte>): seq<Write> {
    if payload == [] then [] else [Copied(payload)]
  }

  lemma SendAttempt(cap: nat, w: nat, snap: nat, payload: seq<byte>, seqNo: u32)
    requires w <= snap + cap && 1024 <= cap < TWO_32 && |payload| <= cap / 2
    ensures Attempt(cap, w, snap, |payload|, seqNo, PayloadWrites(payload), false) ==
      if w + HEADER_SIZE + |payload| <= snap + cap then Some(FrameBytes(Frame(seqNo, payload))) else None
  {
    var pieces := if payload == [] then [] else [payload];
    assert Copies(pieces) == PayloadWrites(payload);
    assert Joined(pieces) == payload by {
      if payload != [] {
        assert pieces[1..] == [] && payload + [] == payload;
      }
    }
    AttemptPieces(cap, w, snap, seqNo, pieces);
  }

  // ---------------------------------------------------------------------
  // Callbacks that write a payload piece by piece
  // ---------------------------------------------------------------------

  function Copies(pieces: seq<seq<byte>>): (ws: seq<Write>)
    ensures |ws| == |pieces|
  {
    if pieces == [] then [] else [Copied(pieces[0])] + Copies(pieces[1..])
  }

  /** Every piece fits a single TryWrite. */
  predicate AllSmall(pieces: seq<seq<byte>>, max: nat) {
    forall i :: 0 <= i < |pieces| ==> |pieces[i]| <= max
  }

  /** With room for all pieces, they all go in exactly when each fits a single write. */
  lemma {:induction false} WrittenPieces(cap: nat, w: nat, snap: nat, pieces: seq<seq<byte>>)
    requires w + |Joined(pieces)| <= snap + cap
    ensures AllSmall(pieces, cap / 2) ==> Written(cap, w, snap, Copies(pieces)) == Joined(pieces)
    ensures !AllSmall(pieces, cap / 2) ==> |Written(cap, w, snap, Copies(pieces))| < |Joined(pieces)|
    ensures |Written(cap, w, snap, Copies(pieces))| <= |Joined(pieces)|
    decreases |pieces|
  {
    if pieces != [] {
      var p, rest := pieces[0], pieces[1..];
      assert Copies(pieces)[1..] == Copies(rest);
      assert AllSmall(pieces, cap / 2) <==> |p| <= cap / 2 && AllSmall(rest, cap / 2) by {
        assert forall i :: 0 < i < |pieces| ==> pieces[i] == rest[i - 1];
      }
      WrittenPieces(cap, if 0 < |p| <= cap / 2 then w + |p| else w, snap, rest);
      assert p == [] ==> p + Joined(rest) == Joined(rest);
    }
  }

  /**
    A callback that writes the announced payload in pieces: the frame goes in as a
    whole exactly when it fits the free space and every piece a single write;
    otherwise nothing does.
   */
  lemma AttemptPieces(cap: nat, w: nat, snap: nat, seqNo: u32, pieces: seq<seq<byte>>)
    requires w <= snap + cap && 1024 <= cap && HEADER_SIZE + |Joined(pieces)| < TWO_32
    ensures Attempt(cap, w, snap, |Joined(pieces)|, seqNo, Copies(pieces), false) ==
      if w + HEADER_SIZE + |Joined(pieces)| <= snap + cap && AllSmall(pieces, cap / 2)
      then Some(FrameBytes(Frame(seqNo, Joined(pieces)))) else None
  {
    var body := Joined(pieces);
    WrapSmall(HEADER_SIZE + |body|);
    WrapSmall(|body|);
    if w + HEADER_SIZE + |body| <= snap + cap {
      WrittenPieces(cap, w + HEADER_SIZE, snap, pieces);
      var written := Written(cap, w + HEADER_SIZE, snap, Copies(pieces));
      assert Emitted(cap, w, snap, |body|, seqNo, Copies(pieces)) == Header(|body|, seqNo) + written;
    }
  }
}
