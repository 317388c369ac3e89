/**
  FrameReader: zero-copy extraction of frames, with a copy into a fallback buffer
  for a frame that runs over the end of the array.
 */
module FrameReaders {
  import opened RingMath
  import opened Memory
  import opened RingBuffers
  import opened Framing

  /** Where TryRecv's payload pointer points. */
  datatype Payload = Nowhere | InRing(at: nat) | InBuffer

  class FrameReader {
    const buf: array<byte>
    var lastLen: u32
    var lastSeq: u32
    var pendingCommit: u32

    constructor (bufSize: u32)
      ensures pendingCommit == 0 && lastSeq == 0 && buf.Length == bufSize && fresh(buf)
    {
      buf := new byte[bufSize](_ => 0);
      lastLen, lastSeq, pendingCommit := 0, 0, 0;
    }

    /** The frame handed out or to be dropped last is still in the ring. */
    ghost predicate Ready(ring: RingBuf)
      reads this, ring, ring.data
    {
      ring.Valid() && pendingCommit <= |ring.Contents()| && buf != ring.data && buf.Length < TWO_32
    }

    /** The bytes behind a payload pointer. */
    function PayloadBytes(ring: RingBuf, p: Payload, len: nat): seq<byte>
      reads buf, ring.data
    {
      match p
      case Nowhere => []
      case InRing(at) => if at + len <= ring.data.Length then ring.data[at..at + len] else []
      case InBuffer => if len <= buf.Length then buf[..len] else []
    }

    method Commit(ring: RingBuf)
      requires Ready(ring)
      modifies this`pendingCommit, ring`readPos, ring`consumed
      ensures Ready(ring) && pendingCommit == 0
      ensures ring.consumed == old(ring.consumed) + old(pendingCommit)
    {
      if pendingCommit > 0 {
        ring.CommitRead(pendingCommit);
        pendingCommit := 0;
      }
    }

    /** CopyFromSegments: `len` bytes from offset `offset` of the two segments together. */
    method CopyFromSegments(s1: seq<byte>, s2: seq<byte>, offset: nat, len: nat)
      requires offset + len <= |s1| + |s2| && len <= buf.Length
      modifies buf
      ensures buf[..len] == (s1 + s2)[offset..offset + len]
    {
      ghost var all := s1 + s2;
      var copied := 0;
      if offset < |s1| {
        var avail := |s1| - offset;
        copied := if avail < len then avail else len;
        MemCopy(buf, 0, s1[offset..offset + copied]);
        assert all[offset..offset + copied] == s1[offset..offset + copied];
        assert buf[..copied] == buf[0..0 + copied];
      }
      if copied < len {
        var at := if offset > |s1| then offset - |s1| else 0;
        ghost var first := buf[..copied];
        MemCopy(buf, copied, s2[at..at + (len - copied)]);
        assert buf[..copied] == first;
        assert all[offset + copied..offset + len] == s2[at..at + (len - copied)];
        assert buf[..len] == buf[..copied] + buf[copied..copied + (len - copied)];
        assert all[offset..offset + len] == all[offset..offset + copied] + all[offset + copied..offset + len];
      }
    }

    /** The header, which may itself lie across the two segments. */
    method ReadHeader(s1: seq<byte>, s2: seq<byte>) returns (bodyLen: u32, seqNo: u32)
      requires |s1| + |s2| >= HEADER_SIZE
      ensures bodyLen == HeaderLen(s1 + s2) && seqNo == HeaderSeq(s1 + s2)
    {
      var hdr;
      if |s1| >= HEADER_SIZE {
        hdr := s1[..HEADER_SIZE];
      } else {
        hdr := s1 + s2[..HEADER_SIZE - |s1|];
      }
      assert hdr[..4] == (s1 + s2)[..4] && hdr[4..8] == (s1 + s2)[4..8];
      bodyLen, seqNo := HeaderLen(hdr), HeaderSeq(hdr);
    }

    /** What TryRecv leaves behind, for each of its answers. */
    twostate predicate Answered(ring: RingBuf, answer: Received, rc: int, payload: Payload, len: u32)
      reads this, buf, ring.data
    {
      match answer
      case NoData => rc == -1 && pendingCommit == 0 && lastSeq == old(lastSeq)
      case BadHeader => rc == -3 && pendingCommit == 0 && lastSeq == old(lastSeq)
      case TooLarge(size) => rc == -2 && pendingCommit == size && lastSeq == old(lastSeq)
      case Received(f, size) =>
        && rc == 0 && pendingCommit == size && lastSeq == f.seqNo
        && len == |f.body| && PayloadBytes(ring, payload, len) == f.body
    }

    /** The length checks on the header: -1 and -3, or 0 for a complete frame. */
    method CheckHeader(cap: nat, s1: seq<byte>, s2: seq<byte>) returns (rc: int, bodyLen: u32, seqNo: u32)
      requires HEADER_SIZE <= cap < TWO_32 && |s1| + |s2| <= cap
      ensures var view := s1 + s2;
        if |view| < HEADER_SIZE then rc == -1
        else if HeaderLen(view) > cap - HEADER_SIZE then rc == -3
        else if HeaderLen(view) > |view| - HEADER_SIZE then rc == -1
        else rc == 0 && bodyLen == HeaderLen(view) && seqNo == HeaderSeq(view)
    {
      bodyLen, seqNo := 0, 0;
      var total := Wrap32(|s1| + |s2|);
      WrapSmall(|s1| + |s2|);
      if total < HEADER_SIZE { return -1, bodyLen, seqNo; }
      bodyLen, seqNo := ReadHeader(s1, s2);
      if bodyLen > cap - HEADER_SIZE { return -3, bodyLen, seqNo; }
      if bodyLen > total - HEADER_SIZE { return -1, bodyLen, seqNo; }
      rc := 0;
    }

    method TryRecv(ring: RingBuf) returns (rc: int, payload: Payload, len: u32)
      requires Ready(ring)
      modifies this, buf, ring`readPos, ring`consumed
      ensures Ready(ring) && ring.consumed == old(ring.consumed) + old(pendingCommit)
      ensures Answered(ring,
        Receive(ring.cap, buf.Length, CellOf(ring.cap, ring.consumed), ring.Contents()), rc, payload, len)
    {
      Commit(ring);
      rc, payload, len := Examine(ring);
    }

    /** TryRecv after the commit of the previous frame. */
    method Examine(ring: RingBuf) returns (rc: int, payload: Payload, len: u32)
      requires Ready(ring) && pendingCommit == 0
      modifies this, buf
      ensures Ready(ring)
      ensures Answered(ring,
        Receive(ring.cap, buf.Length, CellOf(ring.cap, ring.consumed), ring.Contents()), rc, payload, len)
    {
      var seg1, len1, seg2, len2;
      rc, seg1, len1, seg2, len2 := ring.Peek();
      if rc != 0 { return -1, Nowhere, 0; }
      rc, payload, len := ExamineSegments(ring, seg1, len1, len2);
    }

    /** TryRecv once Peek has returned its two segments. */
    method ExamineSegments(ring: RingBuf, seg1: nat, len1: u32, len2: u32) returns (rc: int, payload: Payload, len: u32)
      requires Ready(ring) && pendingCommit == 0 && seg1 == CellOf(ring.cap, ring.consumed)
      requires len1 == FirstSegment(ring.cap, seg1, |ring.Contents()|) && seg1 + len1 <= ring.cap && len2 <= ring.cap
      requires ring.data[seg1..seg1 + len1] + ring.data[..len2] == ring.Contents()
      modifies this, buf
      ensures Ready(ring)
      ensures Answered(ring, Receive(ring.cap, buf.Length, seg1, ring.Contents()), rc, payload, len)
    {
      payload, len := Nowhere, 0;
      ghost var answer := Receive(ring.cap, buf.Length, seg1, ring.Contents());
      var bodyLen, seqNo;
      rc, bodyLen, seqNo := CheckHeader(ring.cap, ring.data[seg1..seg1 + len1], ring.data[..len2]);
      if rc != 0 {
        assert answer == if rc == -3 then BadHeader else NoData;
        return rc, payload, len;
      }
      if bodyLen != 0 && HEADER_SIZE + bodyLen > len1 && bodyLen > buf.Length {
        assert answer == TooLarge(HEADER_SIZE + bodyLen);
        pendingCommit := Wrap32(HEADER_SIZE + bodyLen);
        return -2, payload, len;
      }
      ghost var body := ring.Contents()[HEADER_SIZE..HEADER_SIZE + bodyLen];
      assert answer == Received(Frame(seqNo, body), HEADER_SIZE + bodyLen);
      payload := HandOut(ring, seg1, len1, len2, bodyLen);
      lastLen, lastSeq, pendingCommit := bodyLen, seqNo, Wrap32(HEADER_SIZE + bodyLen);
      return 0, payload, bodyLen;
    }

    /** The payload pointer of a complete frame: into the ring, or into the fallback buffer. */
    method HandOut(ring: RingBuf, seg1: nat, len1: nat, len2: nat, bodyLen: nat) returns (payload: Payload)
      requires seg1 + len1 <= ring.data.Length && len2 <= ring.data.Length && buf != ring.data
      requires HEADER_SIZE + bodyLen <= len1 + len2
      requires bodyLen == 0 || HEADER_SIZE + bodyLen <= len1 || bodyLen <= buf.Length
      modifies buf
      ensures PayloadBytes(ring, payload, bodyLen) ==
        (ring.data[seg1..seg1 + len1] + ring.data[..len2])[HEADER_SIZE..HEADER_SIZE + bodyLen]
    {
      var s1, s2 := ring.data[seg1..seg1 + len1], ring.data[..len2];
      if bodyLen == 0 {
        payload := Nowhere;
      } else if HEADER_SIZE + bodyLen <= len1 {
        payload := InRing(seg1 + HEADER_SIZE);
        SliceOfSlice(ring.data[..], seg1, len1, HEADER_SIZE, bodyLen);
        assert (s1 + s2)[HEADER_SIZE..HEADER_SIZE + bodyLen] == s1[HEADER_SIZE..HEADER_SIZE + bodyLen];
      } else {
        CopyFromSegments(s1, s2, HEADER_SIZE, bodyLen);
        payload := InBuffer;
      }
    }
  }
}
