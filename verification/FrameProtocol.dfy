/**
  Framed traffic over the ring, under every interleaving.

  The producer runs SendFrame and SendFrameBatch with arbitrary payload
  callbacks, Flush and Cancel; the consumer runs FrameReader. Their memory
  accesses are steps of `SpscProtocol`, so everything below holds for every
  byte-level interleaving and every stale view that protocol allows.

  - A callback may write any number of pieces (TryWrite, or Reserve, fill and
    CommitReserve: both are a copy of accepted bytes to the next positions), too
    few bytes, too many, or throw. It does not flush, cancel or rewind the batch
    itself.
  - The announced length is any u32; frame_size is computed in 32 bits. Excluded is
    only the wrap-around gap, in which FrameWriter.WrapGapBreaks shows a fragment
    getting accepted.
  - `queued`, `sent`, `bounds` and `taken` are auxiliary.
 */
module FrameProtocol {
  import opened Basics
  import opened RingMath
  import opened Framing
  import Ring = SpscProtocol

  /** Between frames, or inside SendFrame/SendFrameBatch with the rollback point it saved. */
  datatype Phase = Between | Building(len: u32, seqNo: u32, before: nat, beforeCount: nat)

  /** pending_commit_, hdr_.seq, and what TryRecv has reported so far. */
  datatype Reader = Reader(peeked: bool, pendingCommit: nat, lastSeq: u32, outcomes: seq<Outcome>, errors: nat)

  datatype System = System(
    ring: Ring.State, bufSize: u32, phase: Phase, reader: Reader,
    queued: seq<Frame>, sent: seq<Frame>, bounds: seq<nat>, taken: nat)

  datatype Event =
    | LoadRead(j: nat)
    | BeginFrame(len: u32, seqNo: u32, j: nat)
    | WriteBody(bytes: seq<byte>)
    | StoreByte(k: nat)
    | EndWrite
    | EndFrame(threw: bool)
    | FlushBatch
    | CancelBatch
    | CommitLast
    | Peek(j: nat)
    | ReadByte(off: nat, from: nat)
    | Decide

  /** FreeBytes / WritableBytes with the read cursor the producer holds. */
  function FreeBytes(r: Ring.State): int { r.RSeen() + r.cap - r.w }

  function PendingBytes(r: Ring.State): nat { if r.W() <= r.w then r.w - r.W() else 0 }

  /** The bytes the consumer has read in [lo, hi). */
  ghost function GotRange(got: map<nat, byte>, lo: nat, hi: nat): (r: seq<byte>)
    requires lo <= hi
    ensures |r| == hi - lo
    ensures forall p :: lo <= p < hi && p in got ==> r[p - lo] == got[p]
    decreases hi - lo
  {
    if lo == hi then []
    else GotRange(got, lo, hi - 1) + [if hi - 1 in got then got[hi - 1] else 0]
  }

  ghost function View(r: Ring.State): seq<byte> { GotRange(r.got, r.R(), r.R() + r.Avail()) }

  ghost function TryRecv(s: System): Received
    requires s.ring.cap >= HEADER_SIZE
  {
    Receive(s.ring.cap, s.bufSize, CellOf(s.ring.cap, s.ring.R()), View(s.ring))
  }

  /** Bytes written since the header of the frame being built. */
  ghost function BodySoFar(s: System): seq<byte>
    requires s.phase.Building?
  {
    var p := Ring.Pending(s.ring);
    if s.phase.before + HEADER_SIZE <= |p| then p[s.phase.before + HEADER_SIZE..] else []
  }

  ghost predicate Enabled(s: System, e: Event) {
    && s.ring.Indexed() && s.ring.cap >= HEADER_SIZE
    && match e
       case LoadRead(j) => s.phase.Between? && Ring.Enabled(s.ring, Ring.LoadRead(j))
       case BeginFrame(len, seqNo, j) =>
         && s.phase.Between? && Ring.Enabled(s.ring, Ring.LoadRead(j))
         && FreeBytes(s.ring) >= Size32(len)
         && !WrapGap(FreeBytes(Ring.Apply(s.ring, Ring.LoadRead(j))), len)
       case WriteBody(bytes) => s.phase.Building? && Ring.Enabled(s.ring, Ring.StartWrite(bytes))
       case StoreByte(k) => Ring.Enabled(s.ring, Ring.StoreByte(k))
       case EndWrite => Ring.Enabled(s.ring, Ring.EndWrite)
       case EndFrame(threw) =>
         s.phase.Building? && Ring.Enabled(s.ring, Ring.Rewind(s.phase.before, s.phase.beforeCount))
       case FlushBatch => s.phase.Between? && Ring.Enabled(s.ring, Ring.Flush)
       case CancelBatch => s.phase.Between? && Ring.Enabled(s.ring, Ring.Rewind(0, 0))
       case CommitLast =>
         s.reader.pendingCommit > 0 && Ring.Enabled(s.ring, Ring.CommitRead(s.reader.pendingCommit))
       case Peek(j) => s.reader.pendingCommit == 0 && Ring.Enabled(s.ring, Ring.LoadWrite(j))
       case ReadByte(off, from) => Ring.Enabled(s.ring, Ring.ReadByte(off, from))
       case Decide =>
         && s.reader.peeked && s.reader.pendingCommit == 0
         && forall p :: s.ring.R() <= p < s.ring.R() + s.ring.Avail() ==> p in s.ring.got
  }

  /** The TryWrite of the header; SendFrame and SendFrameBatch ignore its result. */
  ghost function WriteHeader(r: Ring.State, len: u32, seqNo: u32): Ring.State {
    var w := Ring.StartWrite(Header(len, seqNo));
    if Ring.Enabled(r, w) then Ring.Apply(r, w) else r
  }

  ghost function Report(r: Reader, result: Received): Reader {
    match result
    case NoData => r.(peeked := false)
    case BadHeader => r.(peeked := false, errors := r.errors + 1)
    case TooLarge(size) => r.(peeked := false, pendingCommit := size, outcomes := r.outcomes + [Dropped])
    case Received(f, size) =>
      Reader(false, size, f.seqNo, r.outcomes + [Delivered(f)], r.errors)
  }

  ghost function Apply(s: System, e: Event): System
    requires Enabled(s, e)
  {
    match e
    case LoadRead(j) => s.(ring := Ring.Apply(s.ring, Ring.LoadRead(j)))
    case BeginFrame(len, seqNo, j) =>
      s.(ring := WriteHeader(Ring.Apply(s.ring, Ring.LoadRead(j)), len, seqNo),
         phase := Building(len, seqNo, PendingBytes(s.ring), s.ring.count))
    case WriteBody(bytes) => s.(ring := Ring.Apply(s.ring, Ring.StartWrite(bytes)))
    case StoreByte(k) => s.(ring := Ring.Apply(s.ring, Ring.StoreByte(k)))
    case EndWrite => s.(ring := Ring.Apply(s.ring, Ring.EndWrite))
    case EndFrame(threw) =>
      if !threw && LengthMatches(s) then
        s.(phase := Between, queued := s.queued + [Frame(s.phase.seqNo, BodySoFar(s))])
      else
        s.(phase := Between, ring := Ring.Apply(s.ring, Ring.Rewind(s.phase.before, s.phase.beforeCount)))
    case FlushBatch =>
      var ring := Ring.Apply(s.ring, Ring.Flush);
      s.(ring := ring, sent := s.sent + s.queued, queued := [],
         bounds := if |ring.wStores| > |s.ring.wStores| then s.bounds + [|s.sent + s.queued|] else s.bounds)
    case CancelBatch => s.(ring := Ring.Apply(s.ring, Ring.Rewind(0, 0)), queued := [])
    case CommitLast =>
      s.(ring := Ring.Apply(s.ring, Ring.CommitRead(s.reader.pendingCommit)),
         reader := s.reader.(pendingCommit := 0, peeked := false), taken := s.taken + 1)
    case Peek(j) =>
      s.(ring := Ring.Apply(s.ring, Ring.LoadWrite(j)), reader := s.reader.(peeked := true))
    case ReadByte(off, from) => s.(ring := Ring.Apply(s.ring, Ring.ReadByte(off, from)))
    case Decide => s.(reader := Report(s.reader, TryRecv(s)))
  }

  ghost predicate Init(s: System) {
    && Ring.Init(s.ring)
    && s.phase.Between? && s.queued == [] && s.sent == [] && s.bounds == [0] && s.taken == 0
    && s.reader == Reader(false, 0, 0, [], 0)
  }

  // ---------------------------------------------------------------------
  // The invariant
  // ---------------------------------------------------------------------

  /** Sequence number of the last delivered frame, 0 before the first. */
  function LastSeq(outcomes: seq<Outcome>): u32 {
    if outcomes == [] then 0
    else
      var last := outcomes[|outcomes| - 1];
      if last.Delivered? then last.frame.seqNo else LastSeq(outcomes[..|outcomes| - 1])
  }

  /** The unreleased bytes are whole frames, plus the frame being built. */
  ghost predicate BatchOk(pending: seq<byte>, copy: Ring.Copy, phase: Phase, queued: seq<Frame>) {
    match phase
    case Between => copy.NoCopy? && pending == Serialize(queued)
    case Building(len, seqNo, before, _) =>
      && before == |Serialize(queued)|
      && (if copy.Copying? && copy.bytes == Header(len, seqNo) && |pending| == before
          then pending == Serialize(queued)
          else Serialize(queued) + Header(len, seqNo) <= pending)
  }

  /** What was published is the frames sent. */
  ghost predicate SentOk(cap: nat, published: seq<byte>, sent: seq<Frame>) {
    AllFit(cap, sent) && published == Serialize(sent)
  }

  ghost predicate WriterInv(s: System) {
    && SentOk(s.ring.cap, s.ring.published, s.sent) && AllFit(s.ring.cap, s.queued)
    && BatchOk(Ring.Pending(s.ring), s.ring.copy, s.phase, s.queued)
  }

  /** Every value write_pos ever had is a frame boundary. */
  ghost predicate BoundsOk(stores: seq<Ring.Release>, bounds: seq<nat>, sent: seq<Frame>) {
    && |bounds| == |stores|
    && forall j :: 0 <= j < |stores| ==> bounds[j] <= |sent| && stores[j].cursor == Offset(sent, bounds[j])
  }

  /** What the reader reported is what the frames sent so far call for. */
  ghost predicate ReportsOk(cap: nat, bufSize: u32, sent: seq<Frame>, taken: nat, reader: Reader) {
    && cap >= 1 && taken <= |sent|
    && reader.errors == 0
    && reader.lastSeq == LastSeq(reader.outcomes)
    && (reader.pendingCommit == 0 ==> reader.outcomes == Outcomes(cap, bufSize, sent)[..taken])
    && (reader.pendingCommit > 0 ==>
          && taken < |sent| && reader.pendingCommit == FrameSize(sent[taken])
          && reader.outcomes == Outcomes(cap, bufSize, sent)[..taken + 1])
  }

  /** The read position is the boundary in front of the frame reported last and not yet committed. */
  ghost predicate PlaceOk(r: nat, wSeen: nat, sent: seq<Frame>, taken: nat, pendingCommit: nat) {
    taken <= |sent| && r == Offset(sent, taken) && r + pendingCommit <= wSeen
  }

  ghost predicate ReaderInv(s: System) {
    && BoundsOk(s.ring.wStores, s.bounds, s.sent)
    && ReportsOk(s.ring.cap, s.bufSize, s.sent, s.taken, s.reader)
    && PlaceOk(s.ring.R(), s.ring.WSeen(), s.sent, s.taken, s.reader.pendingCommit)
  }

  ghost predicate Inv(s: System) {
    Ring.Inv(s.ring) && WriterInv(s) && ReaderInv(s)
  }

  // ---------------------------------------------------------------------
  // Facts used by several steps
  // ---------------------------------------------------------------------

  /** The cursors, and the counts the code computes from them. */
  lemma Cursors(r: Ring.State)
    requires Ring.CursorInv(r)
    ensures r.cap >= 1024
    ensures r.R() <= r.WSeen() <= r.W() <= r.w <= r.R() + r.cap
    ensures r.Avail() == r.WSeen() - r.R()
    ensures PendingBytes(r) == r.w - r.W() == |Ring.Pending(r)| <= r.cap
  {
    Ring.CursorBounds(r);
  }

  lemma BoundsKept(stores: seq<Ring.Release>, bounds: seq<nat>, sent: seq<Frame>, more: seq<Frame>)
    requires BoundsOk(stores, bounds, sent)
    ensures BoundsOk(stores, bounds, sent + more)
  {
    forall j | 0 <= j < |stores|
      ensures stores[j].cursor == Offset(sent + more, bounds[j])
    {
      OffsetKept(sent, more, bounds[j]);
    }
  }

  lemma ReportsKept(cap: nat, bufSize: u32, sent: seq<Frame>, more: seq<Frame>, taken: nat, reader: Reader)
    requires ReportsOk(cap, bufSize, sent, taken, reader)
    ensures ReportsOk(cap, bufSize, sent + more, taken, reader)
  {
    OutcomesPrefix(cap, bufSize, sent, more);
    if taken < |sent| {
      assert (sent + more)[taken] == sent[taken];
    }
  }

  // ---------------------------------------------------------------------
  // The producer's steps
  // ---------------------------------------------------------------------

  /** The header always fits once the free-space check has passed. */
  lemma HeaderAccepted(r: Ring.State, len: u32, seqNo: u32, j: nat)
    requires Ring.Inv(r) && Ring.Enabled(r, Ring.LoadRead(j))
    requires FreeBytes(r) >= Size32(len) && !WrapGap(FreeBytes(Ring.Apply(r, Ring.LoadRead(j))), len)
    ensures Ring.Enabled(Ring.Apply(r, Ring.LoadRead(j)), Ring.StartWrite(Header(len, seqNo)))
  {
    Ring.CursorBounds(r);
    Ring.LoadInv(r, Ring.LoadRead(j));
    var r' := Ring.Apply(r, Ring.LoadRead(j));
    assert r.rStores[r.rIdx] <= r.rStores[j];
    Ring.CursorBounds(r');
  }

  lemma BeginFrameInv(s: System, len: u32, seqNo: u32, j: nat)
    requires Inv(s) && Enabled(s, BeginFrame(len, seqNo, j))
    ensures Inv(Apply(s, BeginFrame(len, seqNo, j)))
  {
    Cursors(s.ring);
    HeaderAccepted(s.ring, len, seqNo, j);
    Ring.LoadInv(s.ring, Ring.LoadRead(j));
    Ring.StartWriteInv(Ring.Apply(s.ring, Ring.LoadRead(j)), Header(len, seqNo));
  }

  /** The rollback point is never ahead of the pending bytes: RewindTo's assertion holds. */
  lemma RollbackPossible(s: System)
    requires Inv(s) && s.phase.Building? && s.ring.copy.NoCopy?
    ensures Enabled(s, EndFrame(true)) && Enabled(s, EndFrame(false))
  {
    Cursors(s.ring);
  }

  /** A frame that passes the final length check is complete and correct. */
  lemma {:induction false} FrameComplete(pending: seq<byte>, queued: seq<Frame>, len: u32, seqNo: u32)
    requires Serialize(queued) + Header(len, seqNo) <= pending
    requires |pending| == |Serialize(queued)| + HEADER_SIZE + len && len + HEADER_SIZE < TWO_32
    ensures pending == Serialize(queued + [Frame(seqNo, pending[|Serialize(queued)| + HEADER_SIZE..])])
  {
    var n := |Serialize(queued)| + HEADER_SIZE;
    var f := Frame(seqNo, pending[n..]);
    SerializeSnoc(queued, f);
    FrameBytesAre(f);
    assert pending == pending[..n] + pending[n..];
    ConcatAssoc(Serialize(queued), Header(len, seqNo), f.body);
  }

  /** The final length check of SendFrame and SendFrameBatch. */
  predicate LengthMatches(s: System)
    requires s.phase.Building?
  {
    PendingBytes(s.ring) == s.phase.before + Size32(s.phase.len)
  }

  lemma AcceptFrame(s: System)
    requires Ring.CursorInv(s.ring) && WriterInv(s) && s.phase.Building? && s.ring.copy.NoCopy? && LengthMatches(s)
    ensures var f := Frame(s.phase.seqNo, BodySoFar(s));
      Fits(s.ring.cap, f) && Ring.Pending(s.ring) == Serialize(s.queued + [f])
  {
    Cursors(s.ring);
    var pending := Ring.Pending(s.ring);
    FrameComplete(pending, s.queued, s.phase.len, s.phase.seqNo);
  }

  lemma RejectFrame(s: System)
    requires Ring.CursorInv(s.ring) && WriterInv(s) && s.phase.Building? && s.ring.copy.NoCopy?
    ensures s.phase.before <= |Ring.Pending(s.ring)|
    ensures Ring.Pending(s.ring)[..s.phase.before] == Serialize(s.queued)
  {}

  lemma KeepFrame(s: System)
    requires Inv(s) && s.phase.Building? && s.ring.copy.NoCopy? && LengthMatches(s)
    ensures Inv(s.(phase := Between, queued := s.queued + [Frame(s.phase.seqNo, BodySoFar(s))]))
  {
    AcceptFrame(s);
  }

  lemma RollBackFrame(s: System)
    requires Inv(s) && Enabled(s, EndFrame(true))
    ensures Inv(s.(phase := Between, ring := Ring.Apply(s.ring, Ring.Rewind(s.phase.before, s.phase.beforeCount))))
  {
    RejectFrame(s);
    Ring.RewindInv(s.ring, s.phase.before, s.phase.beforeCount);
  }

  lemma EndFrameInv(s: System, threw: bool)
    requires Inv(s) && Enabled(s, EndFrame(threw))
    ensures Inv(Apply(s, EndFrame(threw)))
  {
    if !threw && LengthMatches(s) {
      KeepFrame(s);
    } else {
      RollBackFrame(s);
    }
  }

  lemma AllFitConcat(cap: nat, a: seq<Frame>, b: seq<Frame>)
    requires AllFit(cap, a) && AllFit(cap, b)
    ensures AllFit(cap, a + b)
  {}

  lemma FlushSent(cap: nat, published: seq<byte>, sent: seq<Frame>, queued: seq<Frame>)
    requires SentOk(cap, published, sent) && AllFit(cap, queued)
    ensures SentOk(cap, published + Serialize(queued), sent + queued)
  {
    SerializeConcat(sent, queued);
    AllFitConcat(cap, sent, queued);
  }

  lemma {:induction false} FlushBounds(stores: seq<Ring.Release>, bounds: seq<nat>, sent: seq<Frame>, release: Ring.Release)
    requires BoundsOk(stores, bounds, sent) && release.cursor == |Serialize(sent)|
    ensures BoundsOk(stores + [release], bounds + [|sent|], sent)
  {
    assert sent[..|sent|] == sent;
  }

  lemma PlaceKept(r: nat, wSeen: nat, sent: seq<Frame>, more: seq<Frame>, taken: nat, pendingCommit: nat)
    requires PlaceOk(r, wSeen, sent, taken, pendingCommit)
    ensures PlaceOk(r, wSeen, sent + more, taken, pendingCommit)
  {
    OffsetKept(sent, more, taken);
  }

  lemma FlushReader(s: System)
    requires Ring.Inv(s.ring) && WriterInv(s) && ReaderInv(s) && Enabled(s, FlushBatch)
    ensures ReaderInv(Apply(s, FlushBatch))
  {
    Ring.FlushInv(s.ring);
    FlushSent(s.ring.cap, s.ring.published, s.sent, s.queued);
    BoundsKept(s.ring.wStores, s.bounds, s.sent, s.queued);
    ReportsKept(s.ring.cap, s.bufSize, s.sent, s.queued, s.taken, s.reader);
    PlaceKept(s.ring.R(), s.ring.WSeen(), s.sent, s.queued, s.taken, s.reader.pendingCommit);
    if s.ring.w != s.ring.W() {
      FlushBounds(s.ring.wStores, s.bounds, s.sent + s.queued, Ring.Release(s.ring.w, |s.ring.log|));
    }
  }

  lemma FlushBatchInv(s: System)
    requires Inv(s) && Enabled(s, FlushBatch)
    ensures Inv(Apply(s, FlushBatch))
  {
    FlushReader(s);
    Ring.FlushInv(s.ring);
    FlushSent(s.ring.cap, s.ring.published, s.sent, s.queued);
  }

  lemma CancelBatchInv(s: System)
    requires Inv(s) && Enabled(s, CancelBatch)
    ensures Inv(Apply(s, CancelBatch))
  {
    Ring.RewindInv(s.ring, 0, 0);
  }

  lemma LoadReadInv(s: System, j: nat)
    requires Inv(s) && Enabled(s, LoadRead(j))
    ensures Inv(Apply(s, LoadRead(j)))
  {
    Ring.LoadInv(s.ring, Ring.LoadRead(j));
  }

  lemma StartWriteBatch(pending: seq<byte>, phase: Phase, queued: seq<Frame>, copy: Ring.Copy)
    requires BatchOk(pending, Ring.NoCopy, phase, queued) && phase.Building?
    ensures BatchOk(pending, copy, phase, queued)
  {}

  lemma WriteBodyInv(s: System, bytes: seq<byte>)
    requires Inv(s) && Enabled(s, WriteBody(bytes))
    ensures Inv(Apply(s, WriteBody(bytes)))
  {
    Ring.StartWriteInv(s.ring, bytes);
    StartWriteBatch(Ring.Pending(s.ring), s.phase, s.queued, Ring.Copying(bytes, {}));
  }

  lemma {:induction false} StoreByteInv(s: System, k: nat)
    requires Inv(s) && Enabled(s, StoreByte(k))
    ensures Inv(Apply(s, StoreByte(k)))
  {
    Ring.StoreByteInv(s.ring, k);
  }

  lemma EndWriteBatch(pending: seq<byte>, copy: Ring.Copy, phase: Phase, queued: seq<Frame>)
    requires BatchOk(pending, copy, phase, queued) && copy.Copying?
    ensures BatchOk(pending + copy.bytes, Ring.NoCopy, phase, queued)
  {}

  lemma {:induction false} EndWriteInv(s: System)
    requires Inv(s) && Enabled(s, EndWrite)
    ensures Inv(Apply(s, EndWrite))
  {
    Ring.EndWriteInv(s.ring);
    EndWriteBatch(Ring.Pending(s.ring), s.ring.copy, s.phase, s.queued);
  }

  // ---------------------------------------------------------------------
  // The consumer's steps
  // ---------------------------------------------------------------------

  lemma GotRangeIs(got: map<nat, byte>, published: seq<byte>, lo: nat, hi: nat)
    requires Ring.GotOk(got, published) && lo <= hi <= |published|
    requires forall p :: lo <= p < hi ==> p in got
    ensures GotRange(got, lo, hi) == published[lo..hi]
  {
    var v := GotRange(got, lo, hi);
    forall i | 0 <= i < |v|
      ensures v[i] == published[lo + i]
    {
      var p := lo + i;
      assert p in got && v[p - lo] == got[p];
    }
  }

  /** The bytes Peek shows are the stream from the read position to the boundary seen. */
  lemma ViewIsStream(r: Ring.State)
    requires Ring.CursorInv(r) && Ring.GotOk(r.got, r.published)
    requires forall p :: r.R() <= p < r.R() + r.Avail() ==> p in r.got
    ensures r.WSeen() <= |r.published| && View(r) == r.published[r.R()..r.WSeen()]
  {
    Cursors(r);
    GotRangeIs(r.got, r.published, r.R(), r.WSeen());
  }

  /**
    TryRecv with everything visible consumed reports "no data"; otherwise it
    reports the next frame, delivered or dropped as its position demands. It
    never waits in the middle of a frame and never reports a protocol error.
   */
  lemma TryRecvResult(s: System)
    requires Inv(s) && Enabled(s, Decide)
    ensures s.ring.R() == s.ring.WSeen() ==> TryRecv(s) == NoData
    ensures s.ring.R() < s.ring.WSeen() ==>
      && s.taken < |s.sent|
      && s.ring.R() + FrameSize(s.sent[s.taken]) <= s.ring.WSeen()
      && TryRecv(s) == match OutcomeAt(s.ring.cap, s.bufSize, s.ring.R(), s.sent[s.taken])
                       case Dropped => TooLarge(FrameSize(s.sent[s.taken]))
                       case Delivered(_) => Received(s.sent[s.taken], FrameSize(s.sent[s.taken]))
  {
    Cursors(s.ring);
    ViewIsStream(s.ring);
    if s.ring.R() < s.ring.WSeen() {
      FrameAhead(s.sent, s.taken, s.bounds[s.ring.wIdx]);
      ReceiveFrame(s.ring.cap, s.bufSize, s.ring.R(), s.sent[s.taken], View(s.ring));
    }
  }

  /** Between two boundaries that differ there is a whole frame. */
  lemma {:induction false} FrameAhead(sent: seq<Frame>, n: nat, m: nat)
    requires n <= |sent| && m <= |sent| && Offset(sent, n) < Offset(sent, m)
    ensures n < |sent| && Offset(sent, n) + FrameSize(sent[n]) <= Offset(sent, m) <= |Serialize(sent)|
    ensures FrameBytes(sent[n]) <= Serialize(sent)[Offset(sent, n)..Offset(sent, m)]
  {
    if m < n {
      OffsetsAscend(sent, m, n);
    }
    HeadFrame(sent, n, m);
  }

  lemma LastSeqSnoc(outcomes: seq<Outcome>, o: Outcome)
    ensures LastSeq(outcomes + [o]) == if o.Delivered? then o.frame.seqNo else LastSeq(outcomes)
  {
    assert (outcomes + [o])[..|outcomes|] == outcomes;
  }

  lemma NextReport(cap: nat, bufSize: u32, sent: seq<Frame>, taken: nat, reader: Reader)
    requires ReportsOk(cap, bufSize, sent, taken, reader) && reader.pendingCommit == 0 && taken < |sent|
    ensures var f, o := sent[taken], OutcomeAt(cap, bufSize, Offset(sent, taken), sent[taken]);
      var result := if o.Dropped? then TooLarge(FrameSize(f)) else Received(f, FrameSize(f));
      ReportsOk(cap, bufSize, sent, taken, Report(reader, result))
  {
    var all := Outcomes(cap, bufSize, sent);
    OutcomesAt(cap, bufSize, sent, taken);
    assert all[..taken + 1] == all[..taken] + [all[taken]];
    LastSeqSnoc(all[..taken], all[taken]);
  }

  lemma DecideReader(s: System)
    requires Inv(s) && Enabled(s, Decide)
    ensures ReaderInv(Apply(s, Decide))
  {
    TryRecvResult(s);
    if s.ring.R() < s.ring.WSeen() {
      NextReport(s.ring.cap, s.bufSize, s.sent, s.taken, s.reader);
    } else {
      assert s.ring.R() == s.ring.WSeen();
    }
  }

  lemma DecideInv(s: System)
    requires Inv(s) && Enabled(s, Decide)
    ensures Inv(Apply(s, Decide))
  {
    DecideReader(s);
    assert Apply(s, Decide).ring == s.ring;
  }

  /** The deferred commit never exceeds what is readable: CommitRead's assertion holds. */
  lemma CommitPossible(s: System)
    requires Inv(s) && s.reader.pendingCommit > 0
    ensures Enabled(s, CommitLast)
  {
    Cursors(s.ring);
  }

  lemma CommitReports(cap: nat, bufSize: u32, sent: seq<Frame>, taken: nat, reader: Reader)
    requires ReportsOk(cap, bufSize, sent, taken, reader) && reader.pendingCommit > 0
    ensures ReportsOk(cap, bufSize, sent, taken + 1, reader.(pendingCommit := 0, peeked := false))
    ensures Offset(sent, taken + 1) == Offset(sent, taken) + reader.pendingCommit
  {
    OffsetNext(sent, taken);
  }

  lemma CommitLastReader(s: System)
    requires ReaderInv(s) && Enabled(s, CommitLast)
    ensures ReaderInv(Apply(s, CommitLast))
  {
    var t := Apply(s, CommitLast);
    CommitReports(s.ring.cap, s.bufSize, s.sent, s.taken, s.reader);
    assert t.ring.R() == s.ring.R() + s.reader.pendingCommit && t.ring.WSeen() == s.ring.WSeen();
  }

  lemma CommitLastInv(s: System)
    requires Inv(s) && Enabled(s, CommitLast)
    ensures Inv(Apply(s, CommitLast))
  {
    CommitLastReader(s);
    Ring.CommitReadInv(s.ring, s.reader.pendingCommit);
  }

  lemma PeekInv(s: System, j: nat)
    requires Inv(s) && Enabled(s, Peek(j))
    ensures Inv(Apply(s, Peek(j)))
  {
    Ring.LoadInv(s.ring, Ring.LoadWrite(j));
    assert Ring.CursorInv(Ring.Apply(s.ring, Ring.LoadWrite(j)));
  }

  lemma {:induction false} ReadByteInv(s: System, off: nat, from: nat)
    requires Inv(s) && Enabled(s, ReadByte(off, from))
    ensures Inv(Apply(s, ReadByte(off, from)))
  {
    Ring.ReadByteInv(s.ring, off, from);
  }

  // ---------------------------------------------------------------------
  // Whole runs
  // ---------------------------------------------------------------------

  lemma {:induction false} InitInv(s: System)
    requires Init(s)
    ensures Inv(s)
  {
    Ring.InitInv(s.ring);
    assert s.sent[..0] == [];
  }

  lemma StepInv(s: System, e: Event)
    requires Inv(s) && Enabled(s, e)
    ensures Inv(Apply(s, e))
  {
    match e
    case BeginFrame(len, seqNo, j) => BeginFrameInv(s, len, seqNo, j);
    case EndFrame(threw) => EndFrameInv(s, threw);
    case FlushBatch => FlushBatchInv(s);
    case CancelBatch => CancelBatchInv(s);
    case CommitLast => CommitLastInv(s);
    case Peek(j) => PeekInv(s, j);
    case ReadByte(off, from) => ReadByteInv(s, off, from);
    case Decide => DecideInv(s);
    case LoadRead(j) => LoadReadInv(s, j);
    case WriteBody(bytes) => WriteBodyInv(s, bytes);
    case StoreByte(k) => StoreByteInv(s, k);
    case EndWrite => EndWriteInv(s);
  }

  ghost predicate Reaches(s: System, events: seq<Event>, t: System)
    decreases |events|
  {
    if events == [] then s == t
    else Enabled(s, events[0]) && Reaches(Apply(s, events[0]), events[1..], t)
  }

  lemma {:induction false} RunInv(s: System, events: seq<Event>, t: System)
    requires Inv(s) && Reaches(s, events, t)
    ensures Inv(t)
    decreases |events|
  {
    if events != [] {
      StepInv(s, events[0]);
      RunInv(Apply(s, events[0]), events[1..], t);
    }
  }

  /**
    End to end: in every state of every run the published bytes are exactly the
    frames sent, every value of write_pos is a frame boundary, and what the
    reader has reported is, frame by frame and in order, what the positions of
    the frames sent call for. No protocol error is ever reported, and LastSeq is
    the sequence number of the last frame delivered.
   */
  lemma EndToEnd(s: System, events: seq<Event>, t: System)
    requires Init(s) && Reaches(s, events, t)
    ensures t.ring.cap >= 1024
    ensures t.ring.published == Serialize(t.sent)
    ensures forall j :: 0 <= j < |t.ring.wStores| ==> AtBoundary(t.sent, t.ring.wStores[j].cursor)
    ensures t.reader.outcomes <= Outcomes(t.ring.cap, t.bufSize, t.sent)
    ensures t.reader.errors == 0 && t.reader.lastSeq == LastSeq(t.reader.outcomes)
  {
    InitInv(s);
    RunInv(s, events, t);
    Cursors(t.ring);
    AtBoundaries(t.ring.wStores, t.bounds, t.sent);
  }

  /** A stream position at which a frame starts, or the last one ends. */
  ghost predicate AtBoundary(sent: seq<Frame>, pos: nat) {
    exists n :: 0 <= n <= |sent| && pos == Offset(sent, n)
  }

  lemma AtBoundaries(stores: seq<Ring.Release>, bounds: seq<nat>, sent: seq<Frame>)
    requires BoundsOk(stores, bounds, sent)
    ensures forall j :: 0 <= j < |stores| ==> AtBoundary(sent, stores[j].cursor)
  {
    forall j | 0 <= j < |stores|
      ensures AtBoundary(sent, stores[j].cursor)
    {
      assert stores[j].cursor == Offset(sent, bounds[j]);
    }
  }

  /** A reader that has consumed all that was published has reported every frame once. */
  lemma DrainedMeansAll(t: System)
    requires Ring.CursorInv(t.ring) && WriterInv(t) && ReaderInv(t)
    ensures t.reader.outcomes <= Outcomes(t.ring.cap, t.bufSize, t.sent)
    ensures t.ring.R() == t.ring.W() ==>
      t.reader.pendingCommit == 0 && t.reader.outcomes == Outcomes(t.ring.cap, t.bufSize, t.sent)
  {
    Cursors(t.ring);
    assert t.sent[..|t.sent|] == t.sent;
    if t.ring.R() == t.ring.W() && t.taken < |t.sent| {
      OffsetsAscend(t.sent, t.taken, |t.sent|);
      assert false;
    }
  }

  lemma PrefixesAgree<T>(a: seq<T>, b: seq<T>, all: seq<T>)
    requires a <= all && b <= all
    ensures a <= b || b <= a
  {}

  /**
    Schedule independence: two runs over rings of the same capacity that sent the
    same frames have reported the same outcomes as far as both have got, and
    exactly the same once both readers have consumed everything.
   */
  lemma ScheduleIndependent(t: System, u: System)
    requires Inv(t) && Inv(u) && t.ring.cap == u.ring.cap && t.bufSize == u.bufSize && t.sent == u.sent
    ensures t.reader.outcomes <= u.reader.outcomes || u.reader.outcomes <= t.reader.outcomes
    ensures t.ring.R() == t.ring.W() && u.ring.R() == u.ring.W() ==> t.reader.outcomes == u.reader.outcomes
  {
    DrainedMeansAll(t);
    DrainedMeansAll(u);
    PrefixesAgree(t.reader.outcomes, u.reader.outcomes, Outcomes(t.ring.cap, t.bufSize, t.sent));
  }

  /** The frame TryRecv has reported and not yet committed. */
  lemma HeldFrame(t: System)
    requires ReaderInv(t) && t.reader.pendingCommit > 0
    ensures t.taken < |t.sent| && t.reader.pendingCommit == FrameSize(t.sent[t.taken])
    ensures |t.reader.outcomes| == t.taken + 1
    ensures t.reader.outcomes[t.taken].Delivered? ==> t.reader.outcomes[t.taken] == Delivered(t.sent[t.taken])
  {
    OutcomesAt(t.ring.cap, t.bufSize, t.sent, t.taken);
  }

  /**
    Zero-copy stability: from the moment TryRecv has returned a frame until the
    commit, whatever the producer does in between, every read the memory model
    allows through the payload view yields that frame's byte, and that is the byte
    that was sent. A frame reported as dropped is held in the same way.
   */
  lemma PayloadStable(t: System, k: nat, from: nat)
    requires Inv(t) && HEADER_SIZE + k < t.reader.pendingCommit
    requires Ring.Visible(t.ring, CellOf(t.ring.cap, t.ring.R() + (HEADER_SIZE + k)), from)
    ensures t.taken < |t.sent| && |t.reader.outcomes| == t.taken + 1 && k < |t.sent[t.taken].body|
    ensures t.ring.log[from].val == t.sent[t.taken].body[k]
    ensures t.reader.outcomes[t.taken].Delivered? ==>
      var f := t.reader.outcomes[t.taken].frame;
      k < |f.body| && t.ring.log[from].val == f.body[k]
  {
    HeldFrame(t);
    HeldByte(t.ring, t.sent, t.taken, t.reader.pendingCommit, k, from);
  }

  lemma HeldByte(r: Ring.State, sent: seq<Frame>, taken: nat, pendingCommit: nat, k: nat, from: nat)
    requires Ring.Inv(r) && PlaceOk(r.R(), r.WSeen(), sent, taken, pendingCommit) && r.published == Serialize(sent)
    requires taken < |sent| && pendingCommit == FrameSize(sent[taken]) && k < |sent[taken].body|
    requires Ring.Visible(r, CellOf(r.cap, r.R() + (HEADER_SIZE + k)), from)
    ensures r.log[from].val == sent[taken].body[k]
  {
    HeldReadable(r, sent, taken, pendingCommit, k);
    Ring.ReadsPublished(r, HEADER_SIZE + k, from);
  }

  /** The body of the frame held is readable, and published. */
  lemma HeldReadable(r: Ring.State, sent: seq<Frame>, taken: nat, pendingCommit: nat, k: nat)
    requires Ring.CursorInv(r) && PlaceOk(r.R(), r.WSeen(), sent, taken, pendingCommit)
    requires r.published == Serialize(sent)
    requires taken < |sent| && pendingCommit == FrameSize(sent[taken]) && k < |sent[taken].body|
    ensures HEADER_SIZE + k < r.Avail() && r.R() + (HEADER_SIZE + k) < |r.published|
    ensures r.published[r.R() + (HEADER_SIZE + k)] == sent[taken].body[k]
  {
    Cursors(r);
    BodyInStream(sent, taken, k);
  }

  lemma BodyInStream(fs: seq<Frame>, n: nat, k: nat)
    requires n < |fs| && k < |fs[n].body|
    ensures Offset(fs, n) + HEADER_SIZE + k < |Serialize(fs)|
    ensures Serialize(fs)[Offset(fs, n) + HEADER_SIZE + k] == fs[n].body[k]
  {
    HeadFrame(fs, n, |fs|);
    assert fs[..|fs|] == fs;
    var rest := Serialize(fs)[Offset(fs, n)..];
    assert rest[HEADER_SIZE + k] == FrameBytes(fs[n])[HEADER_SIZE + k];
  }
}
