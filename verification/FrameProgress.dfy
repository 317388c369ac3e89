/**
  What writer and reader of frames can bring about, from every reachable state: a
  frame that fits can be sent, and what was sent can be received.
 */
module FrameProgress {
  import opened Basics
  import opened RingMath
  import opened Framing
  import opened FrameProtocol
  import Ring = SpscProtocol
  import Progress = RingProgress

  lemma {:induction false} ReachesConcat(s: System, a: seq<Event>, m: System, b: seq<Event>, t: System)
    requires Reaches(s, a, m) && Reaches(m, b, t)
    ensures Reaches(s, a + b, t)
    decreases |a|
  {
    if a == [] {
      assert a + b == b;
    } else {
      assert (a + b)[1..] == a[1..] + b;
      ReachesConcat(Apply(s, a[0]), a[1..], m, b, t);
    }
  }

  lemma ReachesCons(s: System, e: Event, rest: seq<Event>, t: System)
    requires Enabled(s, e) && Reaches(Apply(s, e), rest, t)
    ensures Reaches(s, [e] + rest, t)
  {
    assert ([e] + rest)[1..] == rest;
  }

  lemma ReachesSnoc(s: System, events: seq<Event>, m: System, e: Event)
    requires Reaches(s, events, m) && Enabled(m, e)
    ensures Reaches(s, events + [e], Apply(m, e))
  {
    assert [e][1..] == [];
    ReachesConcat(s, events, m, [e], Apply(m, e));
  }

  /** A state of some run. */
  ghost predicate Reachable(t: System) { exists s, run :: Init(s) && Reaches(s, run, t) }

  lemma ReachableInv(t: System)
    requires Reachable(t)
    ensures Inv(t)
  {
    var s, run :| Init(s) && Reaches(s, run, t);
    InitInv(s);
    RunInv(s, run, t);
  }

  lemma ReachableBasics(t: System)
    requires Reachable(t)
    ensures t.ring.Indexed() && t.ring.cap >= 1024 && t.taken <= |t.sent|
    ensures t.ring.W() <= t.ring.w && PendingBytes(t.ring) == |Ring.Pending(t.ring)|
  {
    ReachableInv(t);
    Cursors(t.ring);
  }

  lemma ReachableRun(t: System, events: seq<Event>, u: System)
    requires Reachable(t) && Reaches(t, events, u)
    ensures Reachable(u)
  {
    var s, run :| Init(s) && Reaches(s, run, t);
    ReachesConcat(s, run, t, events, u);
  }

  lemma ReachableStep(t: System, e: Event)
    requires Reachable(t) && Enabled(t, e)
    ensures Reachable(Apply(t, e))
  {
    assert [e][1..] == [];
    ReachableRun(t, [e], Apply(t, e));
  }

  // ---------------------------------------------------------------------
  // Steps of the ring that are events here
  // ---------------------------------------------------------------------

  predicate Liftable(step: Ring.Step) { step.StoreByte? || step.EndWrite? || step.ReadByte? }

  function Lift(step: Ring.Step): Event {
    match step
    case StoreByte(k) => StoreByte(k)
    case ReadByte(off, from) => ReadByte(off, from)
    case _ => EndWrite
  }

  function LiftAll(steps: seq<Ring.Step>): seq<Event> {
    if steps == [] then [] else [Lift(steps[0])] + LiftAll(steps[1..])
  }

  lemma LiftOne(s: System, step: Ring.Step)
    requires s.ring.cap >= HEADER_SIZE && Liftable(step) && Ring.Enabled(s.ring, step)
    ensures Enabled(s, Lift(step)) && Apply(s, Lift(step)) == s.(ring := Ring.Apply(s.ring, step))
    ensures Ring.Apply(s.ring, step).cap == s.ring.cap
  {}

  lemma {:induction false} LiftRun(s: System, steps: seq<Ring.Step>, r: Ring.State)
    requires s.ring.cap >= HEADER_SIZE
    requires Ring.Reaches(s.ring, steps, r) && forall i :: 0 <= i < |steps| ==> Liftable(steps[i])
    ensures Reaches(s, LiftAll(steps), s.(ring := r))
    decreases |steps|
  {
    if steps != [] {
      LiftOne(s, steps[0]);
      LiftRun(s.(ring := Ring.Apply(s.ring, steps[0])), steps[1..], r);
      ReachesCons(s, Lift(steps[0]), LiftAll(steps[1..]), s.(ring := r));
    }
  }

  // ---------------------------------------------------------------------
  // The reader
  // ---------------------------------------------------------------------

  predicate ReaderEvent(e: Event) { e.CommitLast? || e.Peek? || e.ReadByte? || e.Decide? }

  ghost predicate AllReader(events: seq<Event>) { forall i :: 0 <= i < |events| ==> ReaderEvent(events[i]) }

  lemma {:induction false} LiftedReads(steps: seq<Ring.Step>)
    requires Progress.AllReads(steps)
    ensures AllReader(LiftAll(steps)) && forall i :: 0 <= i < |steps| ==> Liftable(steps[i])
    decreases |steps|
  {
    if steps != [] {
      LiftedReads(steps[1..]);
    }
  }

  lemma ReaderConcat(a: seq<Event>, b: seq<Event>)
    requires AllReader(a) && AllReader(b)
    ensures AllReader(a + b)
  {}

  /** Reading leaves the frames, the writer and the number of frames taken alone. */
  ghost predicate SameWork(s: System, t: System) {
    && t.sent == s.sent && t.queued == s.queued && t.phase == s.phase && t.bufSize == s.bufSize
    && t.ring.cap == s.ring.cap && t.ring.W() == s.ring.W()
  }

  lemma PeekEffect(s: System, j: nat)
    requires Enabled(s, Peek(j))
    ensures var t := Apply(s, Peek(j));
      && SameWork(s, t) && t.taken == s.taken && t.reader == s.reader.(peeked := true)
      && t.ring.R() == s.ring.R() && t.ring.WSeen() == s.ring.wStores[j].cursor
  {}

  /** With nothing held, Peek may see everything. */
  lemma PeekLatest(s: System) returns (e: Event)
    requires Reachable(s) && s.reader.pendingCommit == 0
    ensures e.Peek? && Enabled(s, e)
    ensures var t := Apply(s, e);
      && SameWork(s, t) && t.taken == s.taken && t.reader == s.reader.(peeked := true)
      && t.ring.R() == s.ring.R() && t.ring.WSeen() == t.ring.W()
  {
    ReachableBasics(s);
    e := Peek(|s.ring.wStores| - 1);
    PeekEffect(s, |s.ring.wStores| - 1);
  }

  /** All that Peek saw can be read. */
  lemma ReadSeen(s: System) returns (events: seq<Event>, t: System)
    requires Reachable(s)
    ensures Reaches(s, events, t) && AllReader(events)
    ensures t == s.(ring := t.ring) && t.ring == s.ring.(got := t.ring.got)
    ensures Progress.Covered(t.ring.got, s.ring.R(), s.ring.R() + s.ring.Avail())
  {
    ReachableInv(s);
    ReachableBasics(s);
    var steps, r := Progress.ReadUpTo(s.ring, s.ring.Avail());
    LiftedReads(steps);
    LiftRun(s, steps, r);
    events, t := LiftAll(steps), s.(ring := r);
  }

  /** Everything published has been seen and read, and a frame is still to come. */
  ghost predicate SeenAll(s: System) {
    && s.reader.pendingCommit == 0 && s.reader.peeked && s.taken < |s.sent|
    && s.ring.WSeen() == s.ring.W()
    && Progress.Covered(s.ring.got, s.ring.R(), s.ring.R() + s.ring.Avail())
  }

  lemma SeenIs(s: System, m: System, t: System)
    requires SameWork(s, m) && m.taken == s.taken && m.reader == s.reader.(peeked := true)
    requires m.ring.R() == s.ring.R() && m.ring.WSeen() == m.ring.W()
    requires t == m.(ring := t.ring) && t.ring == m.ring.(got := t.ring.got)
    requires Progress.Covered(t.ring.got, m.ring.R(), m.ring.R() + m.ring.Avail())
    requires s.reader.pendingCommit == 0 && s.taken < |s.sent|
    ensures SameWork(s, t) && t.taken == s.taken && SeenAll(t)
  {}

  /** The next frame can be made visible. */
  lemma SeeNext(s: System) returns (events: seq<Event>, t: System)
    requires Reachable(s) && s.reader.pendingCommit == 0 && s.taken < |s.sent|
    ensures Reaches(s, events, t) && AllReader(events)
    ensures SameWork(s, t) && t.taken == s.taken && SeenAll(t)
  {
    var peek := PeekLatest(s);
    ReachableStep(s, peek);
    var bytewise;
    bytewise, t := ReadSeen(Apply(s, peek));
    SeenIs(s, Apply(s, peek), t);
    ReachesCons(s, peek, bytewise, t);
    ReaderConcat([peek], bytewise);
    events := [peek] + bytewise;
  }

  /** The reader is not at the end of the stream while there are frames to come. */
  lemma FramesAhead(s: System)
    requires Ring.CursorInv(s.ring) && WriterInv(s) && ReaderInv(s) && s.taken < |s.sent|
    ensures s.ring.R() < s.ring.W()
  {
    assert s.sent[..|s.sent|] == s.sent;
    OffsetsAscend(s.sent, s.taken, |s.sent|);
  }

  lemma DecideEffect(s: System)
    requires Enabled(s, Decide) && (TryRecv(s).Received? || TryRecv(s).TooLarge?)
    ensures var t := Apply(s, Decide);
      SameWork(s, t) && t.taken == s.taken && t.reader.pendingCommit == TryRecv(s).size
  {}

  /** That frame is then reported. */
  lemma DecideNext(s: System)
    requires Reachable(s) && SeenAll(s)
    ensures Enabled(s, Decide)
    ensures var t := Apply(s, Decide);
      SameWork(s, t) && t.taken == s.taken && t.reader.pendingCommit > 0
  {
    ReachableInv(s);
    FramesAhead(s);
    assert Enabled(s, Decide) by { Cursors(s.ring); }
    TryRecvResult(s);
    DecideEffect(s);
  }

  /** The next frame can be got at. */
  lemma ReportNext(s: System) returns (events: seq<Event>, t: System)
    requires Reachable(s) && s.reader.pendingCommit == 0 && s.taken < |s.sent|
    ensures Reaches(s, events, t) && AllReader(events)
    ensures SameWork(s, t) && t.taken == s.taken && t.reader.pendingCommit > 0
  {
    var before, m := SeeNext(s);
    ReachableRun(s, before, m);
    DecideNext(m);
    ReachesSnoc(s, before, m, Decide);
    ReaderConcat(before, [Decide]);
    events, t := before + [Decide], Apply(m, Decide);
  }

  lemma CommitEffect(s: System)
    requires Enabled(s, CommitLast)
    ensures var t := Apply(s, CommitLast);
      SameWork(s, t) && t.taken == s.taken + 1 && t.reader.pendingCommit == 0
  {}

  lemma CommitNow(s: System)
    requires Reachable(s) && s.reader.pendingCommit > 0
    ensures Enabled(s, CommitLast) && s.taken < |s.sent|
  {
    ReachableInv(s);
    CommitPossible(s);
  }

  /** Frame after frame, until none is left. */
  lemma {:induction false} ReceiveAll(s: System) returns (events: seq<Event>, u: System)
    requires Reachable(s) && s.taken <= |s.sent|
    ensures Reaches(s, events, u) && AllReader(events)
    ensures SameWork(s, u) && u.taken == |s.sent| && u.reader.pendingCommit == 0
    decreases |s.sent| - s.taken, if s.reader.pendingCommit == 0 then 1 else 0
  {
    if s.reader.pendingCommit > 0 {
      CommitNow(s);
      CommitEffect(s);
      ReachableStep(s, CommitLast);
      var rest;
      rest, u := ReceiveAll(Apply(s, CommitLast));
      ReachesCons(s, CommitLast, rest, u);
      ReaderConcat([CommitLast], rest);
      events := [CommitLast] + rest;
    } else if s.taken < |s.sent| {
      var first, m := ReportNext(s);
      ReachableRun(s, first, m);
      var rest;
      rest, u := ReceiveAll(m);
      ReachesConcat(s, first, m, rest, u);
      ReaderConcat(first, rest);
      events := first + rest;
    } else {
      events, u := [], s;
    }
  }

  /**
    From every reachable state the reader alone can get at every frame sent so far:
    its reports then are, for each of them, the outcome its position calls for.
   */
  lemma ReceptionPossible(s: System, run: seq<Event>, t: System) returns (events: seq<Event>, u: System)
    requires Init(s) && Reaches(s, run, t)
    ensures Reaches(t, events, u) && AllReader(events) && u.sent == t.sent && t.ring.cap >= 1
    ensures u.reader.outcomes == Outcomes(t.ring.cap, t.bufSize, t.sent)
  {
    assert Reachable(t);
    ReachableBasics(t);
    events, u := ReceiveAll(t);
    ReachableRun(t, events, u);
    AllReported(u);
  }

  lemma AllReported(u: System)
    requires Reachable(u) && u.taken == |u.sent| && u.reader.pendingCommit == 0
    ensures u.ring.cap >= 1 && u.reader.outcomes == Outcomes(u.ring.cap, u.bufSize, u.sent)
  {
    ReachableInv(u);
  }

  // ---------------------------------------------------------------------
  // The writer
  // ---------------------------------------------------------------------

  lemma {:induction false} LiftedCopies(steps: seq<Ring.Step>)
    requires Progress.AllCopy(steps)
    ensures forall i :: 0 <= i < |steps| ==> Liftable(steps[i])
  {}

  /** A copy under way can be finished. */
  lemma CopyOut(s: System) returns (events: seq<Event>, t: System)
    requires Reachable(s) && s.ring.copy.Copying?
    ensures Reaches(s, events, t) && t == s.(ring := t.ring)
    ensures t.ring.copy.NoCopy? && Progress.Wrote(s.ring, t.ring, s.ring.copy.bytes)
  {
    ReachableInv(s);
    ReachableBasics(s);
    var steps, r := Progress.FinishCopy(s.ring);
    LiftedCopies(steps);
    LiftRun(s, steps, r);
    events, t := LiftAll(steps), s.(ring := r);
  }

  /** Starting a copy changes nothing else. */
  lemma Started(r: Ring.State, bytes: seq<byte>)
    requires Ring.Enabled(r, Ring.StartWrite(bytes))
    ensures var r' := Ring.Apply(r, Ring.StartWrite(bytes));
      && r'.copy == Ring.Copying(bytes, {}) && Ring.Pending(r') == Ring.Pending(r)
      && r'.w == r.w && r'.cap == r.cap && r'.RSeen() == r.RSeen() && r'.W() == r.W()
  {}

  /** A callback can write a piece that fits. */
  lemma WritePiece(s: System, piece: seq<byte>) returns (events: seq<Event>, t: System)
    requires Reachable(s) && s.phase.Building? && s.ring.copy.NoCopy?
    requires Accepts(s.ring.cap, s.ring.w, s.ring.RSeen(), |piece|)
    ensures Reaches(s, events, t) && t == s.(ring := t.ring)
    ensures t.ring.copy.NoCopy? && Progress.Wrote(s.ring, t.ring, piece)
  {
    ReachableBasics(s);
    assert Enabled(s, WriteBody(piece));
    Started(s.ring, piece);
    ReachableStep(s, WriteBody(piece));
    var rest;
    rest, t := CopyOut(Apply(s, WriteBody(piece)));
    ReachesCons(s, WriteBody(piece), rest, t);
    events := [WriteBody(piece)] + rest;
  }

  lemma WroteNothing(r: Ring.State)
    ensures Progress.Wrote(r, r, [])
  {
    assert Ring.Pending(r) + [] == Ring.Pending(r);
  }

  lemma WroteTwice(r: Ring.State, m: Ring.State, t: Ring.State, a: seq<byte>, b: seq<byte>, all: seq<byte>)
    requires Progress.Wrote(r, m, a) && Progress.Wrote(m, t, b) && all == a + b
    ensures Progress.Wrote(r, t, all)
  {
    ConcatAssoc(Ring.Pending(r), a, b);
  }

  lemma WroteParts(r: Ring.State, m: Ring.State, t: Ring.State, body: seq<byte>, n: nat)
    requires n <= |body| && Progress.Wrote(r, m, body[..n]) && Progress.Wrote(m, t, body[n..])
    ensures Progress.Wrote(r, t, body)
  {
    assert body == body[..n] + body[n..];
    WroteTwice(r, m, t, body[..n], body[n..], body);
  }

  /** A callback can write a whole body, in pieces of at most Capacity/2. */
  lemma {:induction false} WriteBodyWhole(s: System, body: seq<byte>) returns (events: seq<Event>, t: System)
    requires Reachable(s) && s.phase.Building? && s.ring.copy.NoCopy?
    requires s.ring.w + |body| <= s.ring.RSeen() + s.ring.cap
    ensures Reaches(s, events, t) && t == s.(ring := t.ring)
    ensures t.ring.copy.NoCopy? && Progress.Wrote(s.ring, t.ring, body)
    decreases |body|
  {
    if body == [] {
      WroteNothing(s.ring);
      events, t := [], s;
    } else {
      assert s.ring.cap >= 1024 by { ReachableBasics(s); }
      var n := if |body| <= s.ring.cap / 2 then |body| else s.ring.cap / 2;
      var first, m := WritePiece(s, body[..n]);
      ReachableRun(s, first, m);
      var rest;
      rest, t := WriteBodyWhole(m, body[n..]);
      WroteParts(s.ring, m.ring, t.ring, body, n);
      ReachesConcat(s, first, m, rest, t);
      events := first + rest;
    }
  }

  /** The producer may learn of all the room there is. */
  lemma LoadAll(s: System) returns (e: Event)
    requires Reachable(s) && s.phase.Between?
    ensures e.LoadRead? && Enabled(s, e)
    ensures var t := Apply(s, e);
      && t == s.(ring := t.ring) && t.ring == s.ring.(rIdx := e.j) && t.ring.RSeen() == s.ring.R()
      && Ring.Pending(t.ring) == Ring.Pending(s.ring) && e.j + 1 == |t.ring.rStores|
  {
    ReachableBasics(s);
    assert s.ring.copy.NoCopy? by { ReachableInv(s); }
    e := LoadRead(|s.ring.rStores| - 1);
  }

  /** With room for a frame, SendFrame or SendFrameBatch gets as far as writing the header. */
  lemma Begun(s: System, f: Frame, j: nat)
    requires Reachable(s) && s.phase.Between? && Fits(s.ring.cap, f)
    requires j == s.ring.rIdx && s.ring.w + FrameSize(f) <= s.ring.RSeen() + s.ring.cap
    ensures var e := BeginFrame(|f.body|, f.seqNo, j);
      && Enabled(s, e)
      && var t := Apply(s, e);
         && t == s.(ring := t.ring, phase := Building(|f.body|, f.seqNo, |Ring.Pending(s.ring)|, s.ring.count))
         && t.ring == s.ring.(copy := Ring.Copying(Header(|f.body|, f.seqNo), {}))
  {
    ReachableBasics(s);
    assert s.ring.copy.NoCopy? by { ReachableInv(s); }
    assert Ring.Apply(s.ring, Ring.LoadRead(j)) == s.ring;
    assert Ring.Enabled(s.ring, Ring.StartWrite(Header(|f.body|, f.seqNo)));
  }

  /** Header and body of a frame can be written. */
  lemma FrameWritten(s: System, f: Frame, j: nat) returns (events: seq<Event>, t: System)
    requires Reachable(s) && s.phase.Between? && Fits(s.ring.cap, f)
    requires j == s.ring.rIdx && s.ring.w + FrameSize(f) <= s.ring.RSeen() + s.ring.cap
    ensures Reaches(s, events, t) && t.ring.copy.NoCopy? && t.queued == s.queued && t.sent == s.sent
    ensures t.phase == Building(|f.body|, f.seqNo, |Ring.Pending(s.ring)|, s.ring.count)
    ensures Progress.Wrote(s.ring, t.ring, FrameBytes(f))
  {
    var begin := BeginFrame(|f.body|, f.seqNo, j);
    Begun(s, f, j);
    var s1 := Apply(s, begin);
    Started(s.ring, Header(|f.body|, f.seqNo));
    ReachableStep(s, begin);
    var copies, s2 := CopyOut(s1);
    ReachableRun(s1, copies, s2);
    var rest;
    rest, t := WriteBodyWhole(s2, f.body);
    FrameBytesAre(f);
    assert Progress.Wrote(s.ring, s2.ring, Header(|f.body|, f.seqNo));
    WroteTwice(s.ring, s2.ring, t.ring, Header(|f.body|, f.seqNo), f.body, FrameBytes(f));
    ReachesCons(s, begin, copies, s2);
    ReachesConcat(s, [begin] + copies, s2, rest, t);
    events := [begin] + copies + rest;
  }

  /** What the final check of SendFrame and SendFrameBatch makes of a frame written in full. */
  lemma Accepted(s: System, t: System, f: Frame)
    requires Reachable(t) && Fits(s.ring.cap, f) && t.ring.copy.NoCopy? && t.queued == s.queued && t.sent == s.sent
    requires t.phase == Building(|f.body|, f.seqNo, |Ring.Pending(s.ring)|, s.ring.count)
    requires Ring.Pending(t.ring) == Ring.Pending(s.ring) + FrameBytes(f)
    ensures Enabled(t, EndFrame(false))
    ensures Apply(t, EndFrame(false)) == t.(phase := Between, queued := s.queued + [f])
  {
    ReachableBasics(t);
    FrameBytesAre(f);
    assert BodySoFar(t) == f.body;
  }

  /** Flush can always be called between frames, and sends what is queued. */
  lemma FlushNow(s: System)
    requires Reachable(s) && s.phase.Between?
    ensures Enabled(s, FlushBatch)
    ensures Apply(s, FlushBatch).sent == s.sent + s.queued && Apply(s, FlushBatch).queued == []
  {
    ReachableBasics(s);
    assert s.ring.copy.NoCopy? by { ReachableInv(s); }
  }

  /**
    From every reachable state between frames, a frame that fits the room the reader
    has really left can be sent, behind whatever is queued, by loading the read
    cursor, SendFrame or SendFrameBatch with a callback that writes the body, and
    Flush.
   */
  lemma SendingPossible(s: System, run: seq<Event>, t: System, f: Frame) returns (events: seq<Event>, u: System)
    requires Init(s) && Reaches(s, run, t) && t.phase.Between?
    requires Fits(t.ring.cap, f) && t.ring.w + FrameSize(f) <= t.ring.R() + t.ring.cap
    ensures Reaches(t, events, u) && u.sent == t.sent + t.queued + [f] && u.queued == [] && u.phase.Between?
  {
    assert Reachable(t);
    var load := LoadAll(t);
    ReachableStep(t, load);
    var t1 := Apply(t, load);
    var writing, t2 := FrameWritten(t1, f, load.j);
    ReachableRun(t1, writing, t2);
    Accepted(t1, t2, f);
    ReachableStep(t2, EndFrame(false));
    var t3 := Apply(t2, EndFrame(false));
    FlushNow(t3);
    u := Apply(t3, FlushBatch);
    events := [load] + writing + [EndFrame(false)] + [FlushBatch];
    ReachesCons(t, load, writing, t2);
    ReachesSnoc(t, [load] + writing, t2, EndFrame(false));
    ReachesSnoc(t, [load] + writing + [EndFrame(false)], t3, FlushBatch);
    ConcatAssoc(t.sent, t.queued, [f]);
  }

  /**
    The end of SendFrame and SendFrameBatch, exactly: the frame joins the queue if the
    callback did not throw and wrote just the bytes announced; otherwise the batch is
    back to what it held before.
   */
  lemma EndFrameExact(s: System, threw: bool)
    requires Reachable(s) && Enabled(s, EndFrame(threw))
    ensures var t, written := Apply(s, EndFrame(threw)), Ring.Pending(s.ring);
      && s.phase.before + HEADER_SIZE <= |written| && t.phase.Between? && t.sent == s.sent
      && if !threw && |written| == s.phase.before + HEADER_SIZE + s.phase.len
         then t.queued == s.queued + [Frame(s.phase.seqNo, written[s.phase.before + HEADER_SIZE..])] && t.ring == s.ring
         else t.queued == s.queued && Ring.Pending(t.ring) == written[..s.phase.before]
              && t.ring.count == s.phase.beforeCount
  {
    BuildingFacts(s);
    ReachableBasics(s);
    if threw || |Ring.Pending(s.ring)| != s.phase.before + HEADER_SIZE + s.phase.len {
      Ring.RewindPending(s.ring, s.phase.before, s.phase.beforeCount);
    }
  }

  /** Inside SendFrame or SendFrameBatch, between two writes of the callback. */
  lemma BuildingFacts(s: System)
    requires Reachable(s) && s.phase.Building? && s.ring.copy.NoCopy?
    ensures s.phase.before + HEADER_SIZE <= |Ring.Pending(s.ring)| <= TWO_31
  {
    ReachableInv(s);
    Cursors(s.ring);
  }

  /** Cancel drops the queue: a later Flush sends nothing of it. */
  lemma CancelDrops(s: System)
    requires Reachable(s) && Enabled(s, CancelBatch)
    ensures var t := Apply(s, CancelBatch);
      && Ring.Pending(t.ring) == [] && t.ring.count == 0
      && Enabled(t, FlushBatch) && Apply(t, FlushBatch).sent == s.sent
      && Apply(t, FlushBatch).ring.published == s.ring.published
  {
    ReachableBasics(s);
    Ring.RewindPending(s.ring, 0, 0);
    ReachableStep(s, CancelBatch);
    FlushNow(Apply(s, CancelBatch));
  }
}
