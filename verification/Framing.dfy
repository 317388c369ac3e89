/**
  Frames: `[len u32][seq u32][payload]`, back to back in a byte stream.

  Besides the codec's EncodeFrame, Encode and Decode this module holds the two
  functions the framing theorems are about: what the reader makes of the bytes
  it can see (`Receive`), and what becomes of a list of frames, as a function
  of the list alone (`Outcomes`).
 */
module Framing {
  import opened Basics
  import opened RingMath
  import opened Memory

  const HEADER_SIZE: int := 8

  /** The type tag that PodCodec and SimplePodCodec put in front of a value. */
  const TAG_SIZE: int := 4

  datatype Frame = Frame(seqNo: u32, body: seq<byte>)

  // ---------------------------------------------------------------------
  // Integers and headers as bytes (host order: little-endian)
  // ---------------------------------------------------------------------

  function LittleEndian(x: nat, n: nat): (r: seq<byte>)
    ensures |r| == n
    decreases x, n
  {
    if n == 0 then [] else [(x % 256) as byte] + LittleEndian(x / 256, n - 1)
  }

  function Value(s: seq<byte>): (r: nat)
  {
    if s == [] then 0 else s[0] as int + 256 * Value(s[1..])
  }

  lemma {:induction false} ValueBound(s: seq<byte>)
    ensures Value(s) < Pow2(8 * |s|)
  {
    if s != [] {
      ValueBound(s[1..]);
      Pow2Add(8, 8 * |s[1..]|);
      Pow2Small();
      assert Pow2(8 * |s|) == 256 * Pow2(8 * |s[1..]|);
    }
  }

  lemma {:induction false} ValueRoundTrip(x: nat, n: nat)
    requires x < Pow2(8 * n)
    ensures Value(LittleEndian(x, n)) == x
    decreases n
  {
    if n != 0 {
      Pow2Add(8, 8 * (n - 1));
      Pow2Small();
      ValueRoundTrip(x / 256, n - 1);
    }
  }

  lemma {:induction false} ValueUnique(s: seq<byte>)
    ensures LittleEndian(Value(s), |s|) == s
  {
    if s != [] {
      ValueUnique(s[1..]);
      assert Value(s) % 256 == s[0] as int && Value(s) / 256 == Value(s[1..]);
    }
  }

  function U32Bytes(x: u32): (r: seq<byte>) ensures |r| == 4 { LittleEndian(x, 4) }

  function BytesU32(s: seq<byte>): (r: u32)
    requires |s| == 4
  {
    ValueBound(s);
    Pow2Large();
    Value(s)
  }

  lemma U32RoundTrip(x: u32)
    ensures BytesU32(U32Bytes(x)) == x
  {
    Pow2Large();
    ValueRoundTrip(x, 4);
  }

  lemma U32Unique(s: seq<byte>)
    requires |s| == 4
    ensures U32Bytes(BytesU32(s)) == s
  {
    ValueUnique(s);
  }

  function Header(len: u32, seqNo: u32): (r: seq<byte>)
    ensures |r| == HEADER_SIZE
  {
    U32Bytes(len) + U32Bytes(seqNo)
  }

  function HeaderLen(s: seq<byte>): u32 requires |s| >= HEADER_SIZE { BytesU32(s[..4]) }

  function HeaderSeq(s: seq<byte>): u32 requires |s| >= HEADER_SIZE { BytesU32(s[4..8]) }

  /** The two fields read back are the two fields written, and no others. */
  lemma HeaderIff(s: seq<byte>, len: u32, seqNo: u32)
    requires |s| >= HEADER_SIZE
    ensures Header(len, seqNo) <= s <==> HeaderLen(s) == len && HeaderSeq(s) == seqNo
  {
    if Header(len, seqNo) <= s {
      assert s[..4] == U32Bytes(len) && s[4..8] == U32Bytes(seqNo) by {
        assert s[..8] == U32Bytes(len) + U32Bytes(seqNo);
      }
      U32RoundTrip(len);
      U32RoundTrip(seqNo);
    }
    if HeaderLen(s) == len && HeaderSeq(s) == seqNo {
      U32Unique(s[..4]);
      U32Unique(s[4..8]);
      assert s[..8] == s[..4] + s[4..8];
    }
  }

  /** A byte further on is 256 times as much. */
  lemma ByteFurther(x: nat, m: nat)
    requires m >= 1
    ensures (x / 256) / m == x / (256 * m)
  {
    var y := x / 256;
    var q, r := y / m, y % m;
    assert y == m * q + r;
    assert (256 * m) * q == 256 * (m * q);
    DivModUnique(x, 256 * m, q, 256 * r + x % 256);
  }

  lemma {:induction false} LittleEndianAt(x: nat, n: nat, i: nat)
    requires i < n
    ensures LittleEndian(x, n)[i] as int == (x / Pow2(8 * i)) % 256
    decreases i
  {
    if i == 0 {
      assert x / 1 == x;
    } else {
      LittleEndianAt(x / 256, n - 1, i - 1);
      Pow2Small();
      Pow2Add(8, 8 * (i - 1));
      ByteFurther(x, Pow2(8 * (i - 1)));
    }
  }

  /** The wire format: four bytes of length, then four of sequence number, least significant first. */
  lemma HeaderLayout(len: u32, seqNo: u32, i: nat)
    requires i < 4
    ensures Header(len, seqNo)[i] as int == (len / Pow2(8 * i)) % 256
    ensures Header(len, seqNo)[4 + i] as int == (seqNo / Pow2(8 * i)) % 256
  {
    LittleEndianAt(len, 4, i);
    LittleEndianAt(seqNo, 4, i);
  }

  // ---------------------------------------------------------------------
  // One frame
  // ---------------------------------------------------------------------

  function FrameSize(f: Frame): nat { HEADER_SIZE + |f.body| }

  /** The precondition of the u32 frame arithmetic. */
  predicate FrameOk(f: Frame) { FrameSize(f) < TWO_32 }

  function FrameBytes(f: Frame): (r: seq<byte>)
    ensures |r| == FrameSize(f)
  {
    Header(Wrap32(|f.body|), f.seqNo) + f.body
  }

  lemma FrameBytesAre(f: Frame)
    requires |f.body| < TWO_32
    ensures FrameBytes(f) == Header(|f.body|, f.seqNo) + f.body
  {
    WrapSmall(|f.body|);
  }

  /** `Decode` of codec.hpp: payload and sequence number of the leading frame. */
  function Decode(buf: seq<byte>): (r: Option<Frame>)
  {
    if |buf| < HEADER_SIZE then None
    else if HeaderLen(buf) > |buf| - HEADER_SIZE then None
    else Some(Frame(HeaderSeq(buf), buf[HEADER_SIZE..HEADER_SIZE + HeaderLen(buf)]))
  }

  /** Decode finds a frame exactly when the buffer starts with its encoding. */
  lemma DecodeIff(buf: seq<byte>, f: Frame)
    requires FrameOk(f)
    ensures Decode(buf) == Some(f) <==> FrameBytes(f) <= buf
  {
    if |buf| >= HEADER_SIZE {
      HeaderIff(buf, |f.body|, f.seqNo);
      PrefixSplit(Header(|f.body|, f.seqNo), f.body, buf);
    }
  }

  lemma PrefixSplit(a: seq<byte>, b: seq<byte>, s: seq<byte>)
    ensures a + b <= s <==> a <= s && |a| + |b| <= |s| && s[|a|..|a| + |b|] == b
  {
    if a <= s && |a| + |b| <= |s| && s[|a|..|a| + |b|] == b {
      assert s[..|a| + |b|] == s[..|a|] + s[|a|..|a| + |b|];
    }
    if a + b <= s {
      assert s[..|a|] == (a + b)[..|a|] && s[|a|..|a| + |b|] == (a + b)[|a|..];
    }
  }

  /** Whatever Decode accepts has a length within the u32 arithmetic of the encoder. */
  lemma DecodeInRange(buf: seq<byte>)
    requires |buf| < TWO_32 && Decode(buf).Some?
    ensures FrameOk(Decode(buf).value) && FrameBytes(Decode(buf).value) <= buf
  {
    DecodeIff(buf, Decode(buf).value);
  }

  // ---------------------------------------------------------------------
  // Encoding, with the frame size in 32 bits
  // ---------------------------------------------------------------------

  /** frame_size: header and payload, added as u32; from 2^32 - 8 on less than a header. */
  function Size32(payloadLen: u32): (r: u32) {
    if HEADER_SIZE + payloadLen < TWO_32 then HEADER_SIZE + payloadLen else HEADER_SIZE + payloadLen - TWO_32
  }

  /** The wrapped size passes a check against `room` that the frame itself would not. */
  predicate SizeSlips(room: int, payloadLen: u32) {
    HEADER_SIZE + payloadLen >= TWO_32 && HEADER_SIZE + payloadLen - TWO_32 <= room
  }

  /** It passes even where there is no room for a header. */
  predicate WrapGap(room: int, payloadLen: u32) { SizeSlips(room, payloadLen) && room < HEADER_SIZE }

  /**
    `EncodeFrame`: writes the header and returns the payload's offset, or -1 for
    nullptr. `mem` is the memory from the buffer's address on, of which the first
    `bufSize` bytes are the buffer: the header stays within it exactly outside the
    wrap-around gap.
   */
  method EncodeFrame(mem: array<byte>, bufSize: u32, payloadLen: u32, seqNo: u32) returns (p: int)
    requires bufSize <= mem.Length && (Size32(payloadLen) <= bufSize ==> HEADER_SIZE <= mem.Length)
    modifies mem
    ensures p == if bufSize < Size32(payloadLen) then -1 else HEADER_SIZE
    ensures p < 0 ==> mem[..] == old(mem[..])
    ensures p >= 0 ==> mem[..HEADER_SIZE] == Header(payloadLen, seqNo) && mem[HEADER_SIZE..] == old(mem[HEADER_SIZE..])
    ensures (p >= 0 ==> HEADER_SIZE <= bufSize) <==> !WrapGap(bufSize, payloadLen)
    ensures (p >= 0 ==> HEADER_SIZE + payloadLen <= bufSize) <==> !SizeSlips(bufSize, payloadLen)
  {
    if bufSize < Size32(payloadLen) {
      return -1;
    }
    MemCopy(mem, 0, Header(payloadLen, seqNo));
    p := HEADER_SIZE;
  }

  /**
    `Encode`: refused, memory is untouched; accepted, it starts with the frame and
    decoding gives it back. All it writes is within the buffer exactly when the
    wrapped size does not slip through the check.
   */
  method Encode(payload: seq<byte>, mem: array<byte>, bufSize: u32, seqNo: u32) returns (n: u32)
    requires |payload| < TWO_32 && bufSize <= mem.Length
    requires Size32(|payload|) <= bufSize ==> HEADER_SIZE + |payload| <= mem.Length
    modifies mem
    ensures n == if bufSize < Size32(|payload|) then 0 else Size32(|payload|)
    ensures bufSize < Size32(|payload|) ==> mem[..] == old(mem[..])
    ensures bufSize >= Size32(|payload|) ==>
      var size := HEADER_SIZE + |payload|;
      mem[..size] == FrameBytes(Frame(seqNo, payload)) && mem[size..] == old(mem[size..])
    ensures bufSize >= Size32(|payload|) && FrameOk(Frame(seqNo, payload)) ==>
      n == HEADER_SIZE + |payload| <= bufSize && Decode(mem[..]) == Some(Frame(seqNo, payload))
    ensures (bufSize >= Size32(|payload|) ==> HEADER_SIZE + |payload| <= bufSize) <==> !SizeSlips(bufSize, |payload|)
  {
    var p := EncodeFrame(mem, bufSize, |payload|, seqNo);
    if p < 0 {
      return 0;
    }
    ghost var f := Frame(seqNo, payload);
    MemAppend(mem, Header(|payload|, seqNo), payload);
    FrameBytesAre(f);
    if FrameOk(f) {
      DecodeIff(mem[..], f);
    }
    n := Size32(|payload|);
  }

  // ---------------------------------------------------------------------
  // Streams of frames
  // ---------------------------------------------------------------------

  function Serialize(fs: seq<Frame>): (r: seq<byte>)
  {
    if fs == [] then [] else Serialize(fs[..|fs| - 1]) + FrameBytes(fs[|fs| - 1])
  }

  /** Stream position at which the n-th frame starts. */
  function Offset(fs: seq<Frame>, n: nat): nat
    requires n <= |fs|
  {
    |Serialize(fs[..n])|
  }

  lemma SerializeSnoc(fs: seq<Frame>, f: Frame)
    ensures Serialize(fs + [f]) == Serialize(fs) + FrameBytes(f)
  {
    assert (fs + [f])[..|fs|] == fs;
  }

  lemma SerializeOne(f: Frame)
    ensures Serialize([f]) == FrameBytes(f)
  {
    SerializeSnoc([], f);
    assert [] + [f] == [f];
  }

  lemma {:induction false} SerializeConcat(a: seq<Frame>, b: seq<Frame>)
    ensures Serialize(a + b) == Serialize(a) + Serialize(b)
    decreases |b|
  {
    if b == [] {
      assert a + b == a;
    } else {
      var b', f := b[..|b| - 1], b[|b| - 1];
      SerializeConcat(a, b');
      SerializeSnoc(a + b', f);
      SerializeSnoc(b', f);
      assert b == b' + [f] && a + b == a + b' + [f];
      ConcatAssoc(Serialize(a), Serialize(b'), FrameBytes(f));
    }
  }

  lemma SerializeCons(fs: seq<Frame>)
    requires fs != []
    ensures Serialize(fs) == FrameBytes(fs[0]) + Serialize(fs[1..])
  {
    assert fs == [fs[0]] + fs[1..];
    SerializeConcat([fs[0]], fs[1..]);
    SerializeOne(fs[0]);
  }

  /** The stream between two frame boundaries is the frames between them. */
  lemma {:induction false} StreamSlice(fs: seq<Frame>, n: nat, m: nat)
    requires n <= m <= |fs|
    ensures Offset(fs, n) <= Offset(fs, m) <= |Serialize(fs)|
    ensures Serialize(fs)[Offset(fs, n)..Offset(fs, m)] == Serialize(fs[n..m])
  {
    assert fs[..m] == fs[..n] + fs[n..m] && fs == fs[..m] + fs[m..];
    SerializeConcat(fs[..n], fs[n..m]);
    SerializeConcat(fs[..m], fs[m..]);
  }

  lemma OffsetNext(fs: seq<Frame>, n: nat)
    requires n < |fs|
    ensures Offset(fs, n + 1) == Offset(fs, n) + FrameSize(fs[n])
  {
    assert fs[..n + 1][..n] == fs[..n];
  }

  lemma {:induction false} OffsetsAscend(fs: seq<Frame>, n: nat, m: nat)
    requires n < m <= |fs|
    ensures Offset(fs, n) < Offset(fs, m)
    decreases m
  {
    OffsetNext(fs, m - 1);
    if n < m - 1 {
      OffsetsAscend(fs, n, m - 1);
    }
  }

  /** Frame boundaries do not move when frames are appended. */
  lemma OffsetKept(fs: seq<Frame>, more: seq<Frame>, n: nat)
    requires n <= |fs|
    ensures Offset(fs + more, n) == Offset(fs, n)
  {
    assert (fs + more)[..n] == fs[..n];
  }

  /** At a boundary with at least one frame to come, that frame's bytes come first. */
  lemma {:induction false} HeadFrame(fs: seq<Frame>, n: nat, m: nat)
    requires n < m <= |fs|
    ensures Offset(fs, n) <= Offset(fs, m) <= |Serialize(fs)|
    ensures FrameBytes(fs[n]) <= Serialize(fs)[Offset(fs, n)..Offset(fs, m)]
  {
    StreamSlice(fs, n, m);
    SerializeCons(fs[n..m]);
  }

  // ---------------------------------------------------------------------
  // The reader's decision
  // ---------------------------------------------------------------------

  /** What TryRecv reports: -1, -3, -2 and 0 in the code's numbering. */
  datatype Received =
    | NoData
    | BadHeader
    | TooLarge(size: nat)
    | Received(frame: Frame, size: nat)

  /** Length of the first of the two segments Peek hands out. */
  function FirstSegment(cap: nat, phys: nat, avail: nat): nat
    requires phys < cap
  {
    if avail <= cap - phys then avail else cap - phys
  }

  /**
    TryRecv after the deferred commit, as a function of the bytes Peek shows and
    of the cell they start in.
   */
  function Receive(cap: nat, bufSize: u32, phys: nat, view: seq<byte>): (r: Received)
    requires cap >= HEADER_SIZE && phys < cap
  {
    if |view| < HEADER_SIZE then NoData
    else
      var len := HeaderLen(view);
      if len > cap - HEADER_SIZE then BadHeader
      else if len > |view| - HEADER_SIZE then NoData
      else if len != 0 && HEADER_SIZE + len > FirstSegment(cap, phys, |view|) && len > bufSize then
        TooLarge(HEADER_SIZE + len)
      else
        Received(Frame(HeaderSeq(view), view[HEADER_SIZE..HEADER_SIZE + len]), HEADER_SIZE + len)
  }

  /** The frame that starts at stream position `pos` runs over the end of the array. */
  predicate Straddles(cap: nat, pos: nat, f: Frame)
    requires cap >= 1
  {
    CellOf(cap, pos) + FrameSize(f) > cap
  }

  datatype Outcome = Dropped | Delivered(frame: Frame)

  /** The fate of a frame: decided by its stream position and its size alone. */
  function OutcomeAt(cap: nat, bufSize: u32, pos: nat, f: Frame): Outcome
    requires cap >= 1
  {
    if Straddles(cap, pos, f) && |f.body| > bufSize then Dropped else Delivered(f)
  }

  function Outcomes(cap: nat, bufSize: u32, fs: seq<Frame>): (r: seq<Outcome>)
    requires cap >= 1
    ensures |r| == |fs|
  {
    if fs == [] then []
    else
      var n := |fs| - 1;
      Outcomes(cap, bufSize, fs[..n]) + [OutcomeAt(cap, bufSize, Offset(fs, n), fs[n])]
  }

  lemma {:induction false} OutcomesPrefix(cap: nat, bufSize: u32, fs: seq<Frame>, more: seq<Frame>)
    requires cap >= 1
    ensures Outcomes(cap, bufSize, fs) <= Outcomes(cap, bufSize, fs + more)
    decreases |more|
  {
    if more == [] {
      assert fs + more == fs;
    } else {
      var more' := more[..|more| - 1];
      assert (fs + more)[..|fs + more| - 1] == fs + more';
      OutcomesPrefix(cap, bufSize, fs, more');
    }
  }

  lemma OutcomesAt(cap: nat, bufSize: u32, fs: seq<Frame>, n: nat)
    requires cap >= 1 && n < |fs|
    ensures Outcomes(cap, bufSize, fs)[n] == OutcomeAt(cap, bufSize, Offset(fs, n), fs[n])
  {
    var pre := fs[..n + 1];
    assert pre[..n] == fs[..n] && fs == pre + fs[n + 1..];
    OutcomesPrefix(cap, bufSize, pre, fs[n + 1..]);
  }

  /** A frame fits the ring and the u32 arithmetic. */
  predicate Fits(cap: nat, f: Frame) { FrameOk(f) && FrameSize(f) <= cap }

  ghost predicate AllFit(cap: nat, fs: seq<Frame>) {
    forall i :: 0 <= i < |fs| ==> Fits(cap, fs[i])
  }

  /**
    Whatever else is visible behind it, the reader treats a complete frame
    according to its stream position: it never waits for it, never calls it a
    protocol error, and drops it exactly when OutcomeAt says so.
   */
  lemma ReceiveFrame(cap: nat, bufSize: u32, pos: nat, f: Frame, view: seq<byte>)
    requires cap >= HEADER_SIZE && Fits(cap, f) && FrameBytes(f) <= view
    ensures Receive(cap, bufSize, CellOf(cap, pos), view) ==
      match OutcomeAt(cap, bufSize, pos, f)
      case Dropped => TooLarge(FrameSize(f))
      case Delivered(_) => Received(f, FrameSize(f))
  {
    DecodeIff(view, f);
  }

  /** The bytes are the beginning of a frame, and not all of it. */
  predicate PartOf(view: seq<byte>, f: Frame) { |view| < FrameSize(f) && view <= FrameBytes(f) }

  /** A header read from part of a frame is that frame's. */
  lemma PartHeader(view: seq<byte>, f: Frame)
    requires FrameOk(f) && PartOf(view, f) && |view| >= HEADER_SIZE
    ensures HeaderLen(view) == |f.body|
  {
    FrameBytesAre(f);
    assert FrameBytes(f)[..|view|][..HEADER_SIZE] == view[..HEADER_SIZE];
    HeaderIff(view, |f.body|, f.seqNo);
  }

  /** Any header with fewer bytes behind it than it announces is part of a frame. */
  lemma SomeFrame(view: seq<byte>) returns (f: Frame)
    requires |view| >= HEADER_SIZE && |view| < HEADER_SIZE + HeaderLen(view)
    ensures |f.body| == HeaderLen(view) && PartOf(view, f)
  {
    var missing := HEADER_SIZE + HeaderLen(view) - |view|;
    f := Frame(HeaderSeq(view), view[HEADER_SIZE..] + seq(missing, _ => 0));
    FrameBytesAre(f);
    HeaderIff(view, HeaderLen(view), HeaderSeq(view));
    assert FrameBytes(f)[..|view|] == view;
  }

  /**
    When TryRecv waits and when it reports an error, by what the bytes are: it waits
    exactly when there are too few for a header or they are part of a frame that fits
    the ring; it reports a protocol error exactly when they hold a header and no frame
    that fits the ring starts, or could go on, that way.
   */
  lemma WaitOrError(cap: nat, bufSize: u32, phys: nat, view: seq<byte>)
    requires HEADER_SIZE <= cap < TWO_32 && phys < cap
    ensures Receive(cap, bufSize, phys, view) == NoData <==>
      |view| < HEADER_SIZE || exists f :: Fits(cap, f) && PartOf(view, f)
    ensures Receive(cap, bufSize, phys, view) == BadHeader <==>
      |view| >= HEADER_SIZE && forall f :: Fits(cap, f) ==> !PartOf(view, f) && !(FrameBytes(f) <= view)
  {
    if |view| >= HEADER_SIZE {
      forall f | Fits(cap, f) && (PartOf(view, f) || FrameBytes(f) <= view)
        ensures HeaderLen(view) == |f.body|
      {
        if PartOf(view, f) {
          PartHeader(view, f);
        } else {
          DecodeIff(view, f);
        }
      }
      if HeaderLen(view) <= cap - HEADER_SIZE {
        if |view| < HEADER_SIZE + HeaderLen(view) {
          var f := SomeFrame(view);
          assert Fits(cap, f);
        } else {
          var f := Frame(HeaderSeq(view), view[HEADER_SIZE..HEADER_SIZE + HeaderLen(view)]);
          DecodeIff(view, f);
          assert Fits(cap, f) && FrameBytes(f) <= view;
        }
      }
    }
  }
}
