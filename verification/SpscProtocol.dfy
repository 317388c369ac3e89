/**
  The lock-free ring as a protocol between one producer and one consumer.

  Every shared-memory access of the two sides is a separate step, so the steps
  of the two sides interleave freely, one byte at a time. Memory is the
  release/acquire machine that the code is written for, not a sequentially
  consistent one:

  - `write_pos` and `read_pos` keep all the values ever stored in them; an
    acquire load may return any of them that is not older than the one the same
    side saw last;
  - the bytes of the array are plain stores kept in a log; a store of
    `write_pos` releases the log as it was at that moment, and a consumer that
    has acquired it may read from a cell any store that the released part of
    the log does not supersede, including stores made later;
  - the bytes of one memcpy are stored in any order, any number of times.

  The steps are stated with unbounded cursors; WrappedCursorsExact shows that the
  code's arithmetic modulo 2^64 agrees with them in every reachable state. `pos`,
  `last` and `published` are auxiliary: no step's outcome depends on them.
 */
module SpscProtocol {
  import opened RingMath

  /** A plain store of one byte; `pos` is the stream position it was meant for. */
  datatype ByteStore = ByteStore(cell: nat, val: byte, pos: nat)

  /** A release store of `write_pos`, with the length of the log it releases. */
  datatype Release = Release(cursor: nat, view: nat)

  datatype Copy = NoCopy | Copying(bytes: seq<byte>, done: set<nat>)

  datatype State = State(
    cap: nat,
    log: seq<ByteStore>,
    wStores: seq<Release>,
    rStores: seq<nat>,
    // producer: w_, index of the read_pos value held in r_, memcpy under way, count_
    w: nat, rIdx: nat, copy: Copy, count: nat,
    // consumer: index of the write_pos value acquired last, bytes read so far
    wIdx: nat, got: map<nat, byte>,
    // auxiliary: latest store for each position, bytes released so far
    last: map<nat, nat>, published: seq<byte>)
  {
    /** Both histories hold at least the initial value, and the loads point into them. */
    predicate Indexed() { rIdx < |rStores| && wIdx < |wStores| }

    /** Published write position. */
    function W(): nat { if wStores == [] then 0 else wStores[|wStores| - 1].cursor }

    /** Published read position. */
    function R(): nat { if rStores == [] then 0 else rStores[|rStores| - 1] }

    /** The producer's view of the read position. */
    function RSeen(): nat { if rIdx < |rStores| then rStores[rIdx] else 0 }

    /** The consumer's view of the write position, and of the log released with it. */
    function WSeen(): nat { if wIdx < |wStores| then wStores[wIdx].cursor else 0 }
    function View(): nat { if wIdx < |wStores| then wStores[wIdx].view else 0 }

    /** Bytes the consumer believes it may read. */
    function Avail(): nat { if R() <= WSeen() then WSeen() - R() else 0 }

    /** End of the area the producer is entitled to write at this moment. */
    function Reach(): nat { w + if copy.Copying? then |copy.bytes| else 0 }
  }

  datatype Step =
    | LoadRead(j: nat)
    | StartWrite(bytes: seq<byte>)
    | StoreByte(k: nat)
    | EndWrite
    | Rewind(pending: nat, count: nat)
    | Flush
    | LoadWrite(j: nat)
    | ReadByte(off: nat, from: nat)
    | CommitRead(n: nat)

  /** Whether store `from` is one the consumer may read in `cell` at this moment. */
  ghost predicate Visible(s: State, cell: nat, from: nat)
  {
    && from < |s.log|
    && s.log[from].cell == cell
    && forall m :: from < m < s.View() && m < |s.log| ==> s.log[m].cell != cell
  }

  ghost predicate Enabled(s: State, step: Step) {
    && s.Indexed() && s.cap >= 1
    && match step
       case LoadRead(j) => s.copy.NoCopy? && s.rIdx <= j < |s.rStores|
       case StartWrite(bytes) =>
         s.copy.NoCopy? && Accepts(s.cap, s.w, s.RSeen(), |bytes|)
       case StoreByte(k) => s.copy.Copying? && k < |s.copy.bytes|
       case EndWrite =>
         s.copy.Copying? && forall k :: 0 <= k < |s.copy.bytes| ==> k in s.copy.done
       case Rewind(pending, count) => s.copy.NoCopy? && s.W() + pending <= s.w
       case Flush => s.copy.NoCopy?
       case LoadWrite(j) => s.wIdx <= j < |s.wStores|
       case ReadByte(off, from) => off < s.Avail() && Visible(s, CellOf(s.cap, s.R() + off), from)
       case CommitRead(n) => n <= s.Avail()
  }

  /** The byte last stored for a position. */
  ghost function Stored(log: seq<ByteStore>, last: map<nat, nat>, p: nat): byte {
    if p in last && last[p] < |log| then log[last[p]].val else 0
  }

  ghost function StoredRange(log: seq<ByteStore>, last: map<nat, nat>, lo: nat, hi: nat): (r: seq<byte>)
    requires lo <= hi
    ensures |r| == hi - lo
    ensures forall p :: lo <= p < hi ==> r[p - lo] == Stored(log, last, p)
    decreases hi - lo
  {
    if lo == hi then [] else StoredRange(log, last, lo, hi - 1) + [Stored(log, last, hi - 1)]
  }

  /** The unreleased bytes of the producer, as the log has them. */
  ghost function Pending(s: State): seq<byte> {
    if s.W() <= s.w then StoredRange(s.log, s.last, s.W(), s.w) else []
  }

  ghost function Apply(s: State, step: Step): State
    requires Enabled(s, step)
  {
    match step
    case LoadRead(j) => s.(rIdx := j)
    case StartWrite(bytes) => s.(copy := Copying(bytes, {}))
    case StoreByte(k) =>
      s.(log := s.log + [ByteStore(CellOf(s.cap, s.w + k), s.copy.bytes[k], s.w + k)],
         last := s.last[s.w + k := |s.log|],
         copy := Copying(s.copy.bytes, s.copy.done + {k}))
    case EndWrite => s.(w := s.w + |s.copy.bytes|, count := s.count + 1, copy := NoCopy)
    case Rewind(pending, count) => s.(w := s.W() + pending, count := count)
    case Flush =>
      if s.w != s.W() then
        s.(wStores := s.wStores + [Release(s.w, |s.log|)],
           published := s.published + Pending(s), count := 0)
      else s.(count := 0)
    case LoadWrite(j) => s.(wIdx := j)
    case ReadByte(off, from) => s.(got := s.got[s.R() + off := s.log[from].val])
    case CommitRead(n) => s.(rStores := s.rStores + [s.R() + n])
  }

  ghost predicate Init(s: State) {
    && ValidCapacity(s.cap)
    && s.log == [] && s.wStores == [Release(0, 0)] && s.rStores == [0]
    && s.w == 0 && s.rIdx == 0 && s.copy.NoCopy? && s.count == 0
    && s.wIdx == 0 && s.got == map[]
    && s.last == map[] && s.published == []
  }

  // ---------------------------------------------------------------------
  // The invariant
  // ---------------------------------------------------------------------

  ghost predicate Monotone(stores: seq<nat>) {
    forall i, j :: 0 <= i <= j < |stores| ==> stores[i] <= stores[j]
  }

  ghost predicate ReleasesAscend(stores: seq<Release>) {
    forall i, j :: 0 <= i <= j < |stores| ==> stores[i].cursor <= stores[j].cursor
  }

  /** R <= WSeen <= W <= w <= reach <= RSeen + cap <= R + cap. */
  ghost predicate CursorInv(s: State) {
    && s.Indexed() && ValidCapacity(s.cap)
    && Monotone(s.rStores) && ReleasesAscend(s.wStores)
    && s.R() <= s.WSeen()
    && s.W() <= s.w
    && s.Reach() <= s.RSeen() + s.cap
    && |s.published| == s.W()
  }

  /** Every store went to the cell of its position. */
  ghost predicate CellsOk(cap: nat, log: seq<ByteStore>) {
    cap >= 1 && forall k :: 0 <= k < |log| ==> log[k].cell == CellOf(cap, log[k].pos)
  }

  /** No store went to or beyond `bound`. */
  ghost predicate Below(log: seq<ByteStore>, bound: nat) {
    forall k :: 0 <= k < |log| ==> log[k].pos < bound
  }

  /** `last` is the index of the latest store for each position. */
  ghost predicate LastOk(log: seq<ByteStore>, last: map<nat, nat>) {
    && (forall k :: 0 <= k < |log| ==> log[k].pos in last && k <= last[log[k].pos])
    && (forall p :: p in last ==> last[p] < |log| && log[last[p]].pos == p)
  }

  /** A cell is never stored for an older lap after it was stored for a newer one. */
  ghost predicate LapsOk(cap: nat, log: seq<ByteStore>) {
    forall k, m :: 0 <= k < |log| && 0 <= m < |log| && log[k].pos + cap <= log[m].pos ==> k < m
  }

  /** The bytes of the memcpy under way that have been stored. */
  ghost predicate CopyOk(log: seq<ByteStore>, last: map<nat, nat>, w: nat, bytes: seq<byte>, done: set<nat>) {
    forall p :: w <= p < w + |bytes| && p - w in done ==>
      p in last && Stored(log, last, p) == bytes[p - w]
  }

  ghost predicate Written(last: map<nat, nat>, w: nat) {
    forall p :: 0 <= p < w ==> p in last
  }

  /** Released positions hold the published bytes. */
  ghost predicate PublishedOk(log: seq<ByteStore>, last: map<nat, nat>, published: seq<byte>) {
    forall i :: 0 <= i < |published| ==> Stored(log, last, i) == published[i]
  }

  /** A release store covers the final stores of the positions below it. */
  ghost predicate Covers(last: map<nat, nat>, release: Release) {
    forall i :: 0 <= i < release.cursor ==> i in last && last[i] < release.view
  }

  ghost predicate ReleasesOk(last: map<nat, nat>, stores: seq<Release>) {
    forall j :: 0 <= j < |stores| ==> Covers(last, stores[j])
  }

  /** Whatever the consumer has read is what was published at that position. */
  ghost predicate GotOk(got: map<nat, byte>, published: seq<byte>) {
    forall p :: p in got ==> p < |published| && got[p] == published[p]
  }

  ghost predicate LogOk(cap: nat, log: seq<ByteStore>, last: map<nat, nat>, bound: nat) {
    CellsOk(cap, log) && LapsOk(cap, log) && LastOk(log, last) && Below(log, bound)
  }

  ghost predicate LogInv(s: State) { LogOk(s.cap, s.log, s.last, s.RSeen() + s.cap) }

  ghost predicate StoredOk(log: seq<ByteStore>, last: map<nat, nat>, w: nat, copy: Copy, published: seq<byte>) {
    && (copy.Copying? ==> CopyOk(log, last, w, copy.bytes, copy.done))
    && Written(last, w) && PublishedOk(log, last, published)
  }

  ghost predicate StreamInv(s: State) {
    && StoredOk(s.log, s.last, s.w, s.copy, s.published)
    && ReleasesOk(s.last, s.wStores)
    && GotOk(s.got, s.published)
  }

  ghost predicate Inv(s: State) {
    CursorInv(s) && LogInv(s) && StreamInv(s)
  }

  // ---------------------------------------------------------------------
  // Consequences in every state
  // ---------------------------------------------------------------------

  /** 0 <= w - r <= Capacity. */
  lemma CursorBounds(s: State)
    requires CursorInv(s)
    ensures s.RSeen() <= s.R() <= s.WSeen() <= s.W() <= s.w <= s.RSeen() + s.cap
    ensures s.Avail() == s.WSeen() - s.R()
  {
    assert s.rStores[s.rIdx] <= s.rStores[|s.rStores| - 1];
    assert s.wStores[s.wIdx].cursor <= s.wStores[|s.wStores| - 1].cursor;
  }

  /** The cell of the k-th byte of a two-segment copy that starts at cell `phys`. */
  function SegmentCell(cap: nat, phys: nat, k: nat): nat {
    if phys + k < cap then phys + k else phys + k - cap
  }

  /** The two segments of a copy that starts at a masked cursor visit the cells in order. */
  lemma SegmentCellExact(cap: nat, p: nat, k: nat)
    requires ValidCapacity(cap) && k < cap
    ensures SegmentCell(cap, RingPhys(cap, Wrap64(p)), k) == CellOf(cap, p + k)
  {
    PhysIsCell(cap, p);
    CellOffset(cap, p, k);
  }

  /**
    The code keeps the cursors modulo 2^64. In every reachable state, also after
    the cursors have wrapped, its space test, its counts of available, pending
    and free bytes and its masked cell numbers are those of the unbounded
    cursors that the steps are stated with.
   */
  lemma {:induction false} WrappedCursorsExact(s: State, len: u32, k: nat)
    requires CursorInv(s) && k < s.cap
    ensures Sub64(Wrap64(s.WSeen()), Wrap64(s.R())) == s.Avail()
    ensures Sub64(Wrap64(s.w), Wrap64(s.W())) == s.w - s.W()
    ensures Sub64(s.cap, Sub64(Wrap64(s.w), Wrap64(s.RSeen()))) == s.RSeen() + s.cap - s.w
    ensures Sub64(Add64(Wrap64(s.w), len), Wrap64(s.RSeen())) <= s.cap <==> s.w + len <= s.RSeen() + s.cap
    ensures SegmentCell(s.cap, RingPhys(s.cap, Wrap64(s.w)), k) == CellOf(s.cap, s.w + k)
    ensures SegmentCell(s.cap, RingPhys(s.cap, Wrap64(s.R())), k) == CellOf(s.cap, s.R() + k)
  {
    CursorBounds(s);
    SpaceTestExact(s.cap, s.w, s.RSeen(), len);
    DistanceExact(s.WSeen(), s.R());
    DistanceExact(s.w, s.W());
    SegmentCellExact(s.cap, s.w, k);
    SegmentCellExact(s.cap, s.R(), k);
  }

  /**
    The cells the producer may be writing are never cells the consumer may be
    reading, whatever stale cursor values the two sides hold.
   */
  lemma WindowsDisjoint(s: State, p: nat, q: nat)
    requires CursorInv(s)
    requires s.W() <= p < s.Reach() && s.R() <= q < s.WSeen()
    ensures RingPhys(s.cap, Wrap64(p)) != RingPhys(s.cap, Wrap64(q))
  {
    CursorBounds(s);
    PhysIsCell(s.cap, p);
    PhysIsCell(s.cap, q);
    if CellOf(s.cap, p) == CellOf(s.cap, q) {
      SameCell(s.cap, p, q);
    }
  }

  /** The latest store for a readable position: released, and alone on its lap. */
  lemma LatestStore(s: State, off: nat) returns (l: nat)
    requires Inv(s) && off < s.Avail()
    ensures l < |s.log| && l < s.View() && s.log[l].pos == s.R() + off
    ensures s.log[l].cell == CellOf(s.cap, s.R() + off)
    ensures s.R() + off < |s.published| && s.log[l].val == s.published[s.R() + off]
    ensures forall m :: 0 <= m < |s.log| && s.log[m].cell == s.log[l].cell ==> m <= l
  {
    CursorBounds(s);
    var i := s.R() + off;
    assert Covers(s.last, s.wStores[s.wIdx]);
    l := s.last[i];
    assert Stored(s.log, s.last, i) == s.published[i];
    forall m | 0 <= m < |s.log| && s.log[m].cell == s.log[l].cell
      ensures m <= l
    {
      if s.log[m].pos != i {
        SameCell(s.cap, s.log[m].pos, i);
      }
    }
  }

  /** Any store that memory may return for a readable byte is the published byte. */
  lemma ReadsPublished(s: State, off: nat, from: nat)
    requires Inv(s) && off < s.Avail() && Visible(s, CellOf(s.cap, s.R() + off), from)
    ensures s.R() + off < |s.published| && s.log[from].val == s.published[s.R() + off]
  {
    var l := LatestStore(s, off);
    assert from == l;
  }

  /** There is always a store to read: the guarantee above is not vacuous. */
  lemma ReadPossible(s: State, off: nat)
    requires Inv(s) && off < s.Avail()
    ensures exists from :: Enabled(s, ReadByte(off, from))
  {
    var l := LatestStore(s, off);
    assert Enabled(s, ReadByte(off, l));
  }

  // ---------------------------------------------------------------------
  // Every step keeps the invariant
  // ---------------------------------------------------------------------

  lemma InitInv(s: State)
    requires Init(s)
    ensures Inv(s)
  {}

  lemma {:induction false} RangeKept(
      log: seq<ByteStore>, last: map<nat, nat>, log': seq<ByteStore>, last': map<nat, nat>, lo: nat, hi: nat)
    requires lo <= hi && forall p :: lo <= p < hi ==> Stored(log, last, p) == Stored(log', last', p)
    ensures StoredRange(log, last, lo, hi) == StoredRange(log', last', lo, hi)
    decreases hi - lo
  {
    if lo < hi {
      RangeKept(log, last, log', last', lo, hi - 1);
    }
  }

  lemma {:induction false} RangeSplit(log: seq<ByteStore>, last: map<nat, nat>, lo: nat, mid: nat, hi: nat)
    requires lo <= mid <= hi
    ensures StoredRange(log, last, lo, hi) == StoredRange(log, last, lo, mid) + StoredRange(log, last, mid, hi)
    decreases hi - mid
  {
    if mid < hi {
      RangeSplit(log, last, lo, mid, hi - 1);
    }
  }

  lemma RangePrefix(log: seq<ByteStore>, last: map<nat, nat>, lo: nat, n: nat, hi: nat)
    requires lo + n <= hi
    ensures StoredRange(log, last, lo, hi)[..n] == StoredRange(log, last, lo, lo + n)
  {
    RangeSplit(log, last, lo, lo + n, hi);
  }

  lemma StartWriteInv(s: State, bytes: seq<byte>)
    requires Inv(s) && Enabled(s, StartWrite(bytes))
    ensures Inv(Apply(s, StartWrite(bytes)))
    ensures Pending(Apply(s, StartWrite(bytes))) == Pending(s)
  {
    CursorBounds(s);
  }

  /** One more byte in the log, for position p. */
  lemma {:induction false} StoreKeepsLog(cap: nat, log: seq<ByteStore>, p: nat, b: byte, reach: nat)
    requires CellsOk(cap, log) && LapsOk(cap, log) && Below(log, reach)
    requires p < reach <= p + cap
    ensures var log' := log + [ByteStore(CellOf(cap, p), b, p)];
      CellsOk(cap, log') && LapsOk(cap, log') && Below(log', reach)
  {}

  lemma StoreIsLatest(log: seq<ByteStore>, last: map<nat, nat>, store: ByteStore)
    requires LastOk(log, last)
    ensures var log', last' := log + [store], last[store.pos := |log|];
      && LastOk(log', last')
      && Stored(log', last', store.pos) == store.val
      && forall q: nat :: q != store.pos ==> Stored(log', last', q) == Stored(log, last, q)
  {
    var log' := log + [store];
    assert forall m :: 0 <= m < |log| ==> log'[m] == log[m];
  }

  lemma StoreKeepsReleases(last: map<nat, nat>, stores: seq<Release>, p: nat, n: nat)
    requires ReleasesOk(last, stores) && forall j :: 0 <= j < |stores| ==> stores[j].cursor <= p
    ensures ReleasesOk(last[p := n], stores)
  {
    forall j | 0 <= j < |stores|
      ensures Covers(last[p := n], stores[j])
    {
      assert Covers(last, stores[j]);
    }
  }

  lemma StoreKeepsCopy(s: State, t: State, k: nat, bytes: seq<byte>, done: set<nat>)
    requires CopyOk(s.log, s.last, s.w, bytes, done) && k < |bytes|
    requires t.last.Keys == s.last.Keys + {s.w + k}
    requires forall q: nat :: q != s.w + k ==> Stored(t.log, t.last, q) == Stored(s.log, s.last, q)
    requires Stored(t.log, t.last, s.w + k) == bytes[k]
    ensures CopyOk(t.log, t.last, s.w, bytes, done + {k})
  {}

  /** Where the k-th byte of the memcpy lands. */
  lemma StoreTarget(s: State, k: nat)
    requires CursorInv(s) && Enabled(s, StoreByte(k))
    ensures Apply(s, StoreByte(k)).log == s.log + [ByteStore(CellOf(s.cap, s.w + k), s.copy.bytes[k], s.w + k)]
    ensures s.W() <= s.w + k < s.RSeen() + s.cap <= s.w + k + s.cap
  {
    CursorBounds(s);
  }

  /** The store is the latest for its position; no other position is touched. */
  lemma StoreByteLatest(s: State, k: nat)
    requires CursorInv(s) && LastOk(s.log, s.last) && Enabled(s, StoreByte(k))
    ensures var t, p := Apply(s, StoreByte(k)), s.w + k;
      && LastOk(t.log, t.last)
      && Stored(t.log, t.last, p) == s.copy.bytes[k]
      && forall q: nat :: q != p ==> Stored(t.log, t.last, q) == Stored(s.log, s.last, q)
  {
    StoreTarget(s, k);
    StoreIsLatest(s.log, s.last, ByteStore(CellOf(s.cap, s.w + k), s.copy.bytes[k], s.w + k));
  }

  lemma StoreLog(cap: nat, log: seq<ByteStore>, last: map<nat, nat>, p: nat, b: byte, bound: nat,
                 log': seq<ByteStore>, last': map<nat, nat>)
    requires LogOk(cap, log, last, bound) && p < bound <= p + cap
    requires log' == log + [ByteStore(CellOf(cap, p), b, p)] && last' == last[p := |log|]
    ensures LogOk(cap, log', last', bound)
  {
    assert LastOk(log', last') by { StoreIsLatest(log, last, ByteStore(CellOf(cap, p), b, p)); }
    StoreKeepsLog(cap, log, p, b, bound);
  }

  lemma StoreByteLog(s: State, k: nat)
    requires CursorInv(s) && LogInv(s) && Enabled(s, StoreByte(k))
    ensures LogInv(Apply(s, StoreByte(k)))
  {
    var t := Apply(s, StoreByte(k));
    StoreTarget(s, k);
    assert t.RSeen() == s.RSeen();
    StoreLog(s.cap, s.log, s.last, s.w + k, s.copy.bytes[k], s.RSeen() + s.cap, t.log, t.last);
  }

  lemma StoreKeepsPublished(s: State, t: State, p: nat)
    requires PublishedOk(s.log, s.last, s.published) && |s.published| <= p
    requires forall q: nat :: q != p ==> Stored(t.log, t.last, q) == Stored(s.log, s.last, q)
    ensures PublishedOk(t.log, t.last, s.published)
  {}

  lemma StoreByteStored(s: State, k: nat)
    requires CursorInv(s) && LastOk(s.log, s.last) && Enabled(s, StoreByte(k))
    requires StoredOk(s.log, s.last, s.w, s.copy, s.published)
    ensures var t := Apply(s, StoreByte(k));
      StoredOk(t.log, t.last, t.w, t.copy, t.published)
  {
    var t := Apply(s, StoreByte(k));
    StoreByteLatest(s, k);
    StoreKeepsCopy(s, t, k, s.copy.bytes, s.copy.done);
    StoreKeepsPublished(s, t, s.w + k);
  }

  lemma StoreByteReleases(s: State, k: nat)
    requires CursorInv(s) && ReleasesOk(s.last, s.wStores) && Enabled(s, StoreByte(k))
    ensures ReleasesOk(s.last[s.w + k := |s.log|], s.wStores)
  {
    assert forall j :: 0 <= j < |s.wStores| ==> s.wStores[j].cursor <= s.W();
    StoreKeepsReleases(s.last, s.wStores, s.w + k, |s.log|);
  }

  lemma StoreByteCursors(s: State, k: nat)
    requires CursorInv(s) && Enabled(s, StoreByte(k))
    ensures CursorInv(Apply(s, StoreByte(k)))
  {}

  lemma StoreBytePending(s: State, k: nat)
    requires CursorInv(s) && LastOk(s.log, s.last) && Enabled(s, StoreByte(k))
    ensures Pending(Apply(s, StoreByte(k))) == Pending(s)
  {
    var t := Apply(s, StoreByte(k));
    StoreByteLatest(s, k);
    RangeKept(s.log, s.last, t.log, t.last, s.W(), s.w);
  }

  lemma StoreByteInv(s: State, k: nat)
    requires Inv(s) && Enabled(s, StoreByte(k))
    ensures Inv(Apply(s, StoreByte(k)))
    ensures Pending(Apply(s, StoreByte(k))) == Pending(s)
  {
    StoreByteCursors(s, k);
    StoreByteLog(s, k);
    StoreByteStored(s, k);
    StoreByteReleases(s, k);
    StoreBytePending(s, k);
  }

  /** Once every byte is stored, the positions of the memcpy hold its bytes. */
  lemma CopyDone(s: State)
    requires Enabled(s, EndWrite) && Written(s.last, s.w)
    requires CopyOk(s.log, s.last, s.w, s.copy.bytes, s.copy.done)
    ensures Written(s.last, s.w + |s.copy.bytes|)
    ensures StoredRange(s.log, s.last, s.w, s.w + |s.copy.bytes|) == s.copy.bytes
  {
    forall p | s.w <= p < s.w + |s.copy.bytes|
      ensures p in s.last && Stored(s.log, s.last, p) == s.copy.bytes[p - s.w]
    {
      assert p - s.w in s.copy.done;
    }
    var r := StoredRange(s.log, s.last, s.w, s.w + |s.copy.bytes|);
    forall i | 0 <= i < |r|
      ensures r[i] == s.copy.bytes[i]
    {
      var p := s.w + i;
      assert r[p - s.w] == Stored(s.log, s.last, p);
    }
  }

  lemma EndWritePending(s: State)
    requires Enabled(s, EndWrite) && Written(s.last, s.w) && s.W() <= s.w
    requires CopyOk(s.log, s.last, s.w, s.copy.bytes, s.copy.done)
    ensures Pending(Apply(s, EndWrite)) == Pending(s) + s.copy.bytes
  {
    CopyDone(s);
    RangeSplit(s.log, s.last, s.W(), s.w, s.w + |s.copy.bytes|);
  }

  lemma EndWriteInv(s: State)
    requires Inv(s) && Enabled(s, EndWrite)
    ensures Inv(Apply(s, EndWrite))
    ensures Pending(Apply(s, EndWrite)) == Pending(s) + s.copy.bytes
  {
    EndWritePending(s);
    assert Written(s.last, s.w + |s.copy.bytes|) by { CopyDone(s); }
  }

  lemma RewindCursors(s: State, pending: nat, count: nat)
    requires CursorInv(s) && Enabled(s, Rewind(pending, count))
    ensures CursorInv(Apply(s, Rewind(pending, count)))
  {}

  lemma RewindStored(log: seq<ByteStore>, last: map<nat, nat>, w: nat, w': nat, published: seq<byte>)
    requires StoredOk(log, last, w, NoCopy, published) && w' <= w
    ensures StoredOk(log, last, w', NoCopy, published)
  {}

  lemma RewindPending(s: State, pending: nat, count: nat)
    requires s.W() + pending <= s.w && Enabled(s, Rewind(pending, count))
    ensures Pending(Apply(s, Rewind(pending, count))) == Pending(s)[..pending]
  {
    var t := Apply(s, Rewind(pending, count));
    assert t.W() == s.W() && t.w == s.W() + pending;
    RangePrefix(s.log, s.last, s.W(), pending, s.w);
  }

  lemma RewindInv(s: State, pending: nat, count: nat)
    requires Inv(s) && Enabled(s, Rewind(pending, count))
    ensures s.W() + pending <= s.w
    ensures Inv(Apply(s, Rewind(pending, count)))
    ensures Pending(Apply(s, Rewind(pending, count))) == Pending(s)[..pending]
  {
    RewindCursors(s, pending, count);
    RewindStored(s.log, s.last, s.w, s.W() + pending, s.published);
    RewindPending(s, pending, count);
  }

  /** One more value of write_pos, not below the others. */
  lemma ReleasesMore(stores: seq<Release>, release: Release)
    requires ReleasesAscend(stores) && (stores != [] ==> stores[|stores| - 1].cursor <= release.cursor)
    ensures ReleasesAscend(stores + [release])
  {
    assert forall j :: 0 <= j < |stores| ==> stores[j].cursor <= stores[|stores| - 1].cursor;
  }

  lemma FlushCursors(s: State)
    requires CursorInv(s) && Enabled(s, Flush) && s.w != s.W()
    ensures CursorInv(Apply(s, Flush)) && Apply(s, Flush).W() == s.w
    ensures Apply(s, Flush).RSeen() == s.RSeen()
  {
    ReleasesMore(s.wStores, Release(s.w, |s.log|));
  }

  /** The pending bytes, once published, are where they were stored. */
  lemma FlushStored(s: State)
    requires StoredOk(s.log, s.last, s.w, NoCopy, s.published) && |s.published| == s.W() <= s.w
    ensures StoredOk(s.log, s.last, s.w, NoCopy, s.published + Pending(s))
  {
    var pending, published := Pending(s), s.published + Pending(s);
    forall i | 0 <= i < |published|
      ensures Stored(s.log, s.last, i) == published[i]
    {
      if i >= s.W() {
        assert pending[i - s.W()] == Stored(s.log, s.last, i);
      }
    }
  }

  lemma FlushReleases(last: map<nat, nat>, log: seq<ByteStore>, stores: seq<Release>, w: nat)
    requires ReleasesOk(last, stores) && Written(last, w) && LastOk(log, last)
    ensures ReleasesOk(last, stores + [Release(w, |log|)])
  {
    assert Covers(last, Release(w, |log|));
  }

  lemma GotKept(got: map<nat, byte>, published: seq<byte>, more: seq<byte>)
    requires GotOk(got, published)
    ensures GotOk(got, published + more)
  {}

  lemma FlushInv(s: State)
    requires Inv(s) && Enabled(s, Flush)
    ensures Inv(Apply(s, Flush))
    ensures Apply(s, Flush).published == s.published + Pending(s)
    ensures Apply(s, Flush).W() == s.w && Pending(Apply(s, Flush)) == []
  {
    if s.w != s.W() {
      FlushCursors(s);
      FlushStored(s);
      FlushReleases(s.last, s.log, s.wStores, s.w);
      GotKept(s.got, s.published, Pending(s));
    } else {
      assert Pending(s) == [];
    }
  }

  lemma LoadInv(s: State, step: Step)
    requires Inv(s) && Enabled(s, step) && (step.LoadRead? || step.LoadWrite?)
    ensures Inv(Apply(s, step))
    ensures Pending(Apply(s, step)) == Pending(s)
  {
    if step.LoadRead? {
      assert s.rStores[s.rIdx] <= s.rStores[step.j];
    } else {
      assert s.wStores[s.wIdx].cursor <= s.wStores[step.j].cursor;
    }
  }

  lemma GotMore(got: map<nat, byte>, published: seq<byte>, p: nat, b: byte)
    requires GotOk(got, published) && p < |published| && b == published[p]
    ensures GotOk(got[p := b], published)
  {}

  /** A byte more read, and nothing else. */
  lemma GotInv(s: State, got: map<nat, byte>)
    requires Inv(s) && GotOk(got, s.published)
    ensures Inv(s.(got := got)) && Pending(s.(got := got)) == Pending(s)
  {
    assert CursorInv(s.(got := got));
  }

  lemma ReadGot(s: State, off: nat, from: nat)
    requires Inv(s) && Enabled(s, ReadByte(off, from))
    ensures GotOk(s.got[s.R() + off := s.log[from].val], s.published)
  {
    ReadsPublished(s, off, from);
    GotMore(s.got, s.published, s.R() + off, s.log[from].val);
  }

  lemma ReadByteInv(s: State, off: nat, from: nat)
    requires Inv(s) && Enabled(s, ReadByte(off, from))
    ensures Inv(Apply(s, ReadByte(off, from)))
    ensures Pending(Apply(s, ReadByte(off, from))) == Pending(s)
  {
    ReadGot(s, off, from);
    GotInv(s, s.got[s.R() + off := s.log[from].val]);
  }

  lemma CommitReadInv(s: State, n: nat)
    requires Inv(s) && Enabled(s, CommitRead(n))
    ensures Inv(Apply(s, CommitRead(n)))
    ensures Pending(Apply(s, CommitRead(n))) == Pending(s)
  {
    CursorBounds(s);
    assert forall i :: 0 <= i < |s.rStores| ==> s.rStores[i] <= s.R();
    var t := Apply(s, CommitRead(n));
    assert CursorInv(t) && LogInv(t);
  }

  lemma StepInv(s: State, step: Step)
    requires Inv(s) && Enabled(s, step)
    ensures Inv(Apply(s, step))
  {
    match step
    case StartWrite(bytes) => StartWriteInv(s, bytes);
    case StoreByte(k) => StoreByteInv(s, k);
    case EndWrite => EndWriteInv(s);
    case Rewind(pending, count) => RewindInv(s, pending, count);
    case Flush => FlushInv(s);
    case LoadRead(_) => LoadInv(s, step);
    case LoadWrite(_) => LoadInv(s, step);
    case ReadByte(off, from) => ReadByteInv(s, off, from);
    case CommitRead(n) => CommitReadInv(s, n);
  }

  // ---------------------------------------------------------------------
  // Whole runs
  // ---------------------------------------------------------------------

  /** `t` is what some interleaving, given by its steps, makes of `s`. */
  ghost predicate Reaches(s: State, steps: seq<Step>, t: State)
    decreases |steps|
  {
    if steps == [] then s == t
    else
      && Enabled(s, steps[0])
      && Reaches(Apply(s, steps[0]), steps[1..], t)
  }

  /**
    What was published stays published and what was consumed stays consumed:
    along any run both sequences only grow at the end.
   */
  ghost predicate Extends(s: State, t: State)
  {
    && s.published <= t.published
    && s.R() <= t.R()
    && forall p :: p in s.got ==> p in t.got && t.got[p] == s.got[p]
  }

  lemma GotExtends(s: State, p: nat, b: byte)
    requires GotOk(s.got, s.published) && p < |s.published| && b == s.published[p]
    ensures Extends(s, s.(got := s.got[p := b]))
  {}

  lemma ReadExtends(s: State, off: nat, from: nat)
    requires Inv(s) && Enabled(s, ReadByte(off, from))
    ensures Extends(s, Apply(s, ReadByte(off, from)))
  {
    ReadsPublished(s, off, from);
    GotExtends(s, s.R() + off, s.log[from].val);
  }

  lemma OtherExtends(s: State, step: Step)
    requires Enabled(s, step) && !step.ReadByte?
    ensures Extends(s, Apply(s, step))
  {}

  lemma StepExtends(s: State, step: Step)
    requires Inv(s) && Enabled(s, step)
    ensures Extends(s, Apply(s, step))
  {
    if step.ReadByte? {
      ReadExtends(s, step.off, step.from);
    } else {
      OtherExtends(s, step);
    }
  }

  lemma {:induction false} RunInv(s: State, steps: seq<Step>, t: State)
    requires Inv(s) && Reaches(s, steps, t)
    ensures Inv(t) && Extends(s, t)
    decreases |steps|
  {
    if steps != [] {
      StepInv(s, steps[0]);
      StepExtends(s, steps[0]);
      RunInv(Apply(s, steps[0]), steps[1..], t);
    }
  }

  /**
    The ring is an unbounded FIFO: in every state of every run every byte the
    consumer has read equals the byte published at that stream position, the
    bytes behind the read cursor form a prefix of what was published, and the
    distance of the cursors stays within the capacity.
   */
  lemma {:induction false} RingIsFifo(s: State, steps: seq<Step>, t: State)
    requires Init(s) && Reaches(s, steps, t)
    ensures Inv(t) && t.R() <= t.W() <= t.R() + t.cap && t.W() == |t.published|
    ensures forall p :: p in t.got ==> p < |t.published| && t.got[p] == t.published[p]
    ensures (forall p :: 0 <= p < t.R() ==> p in t.got) ==>
              seq(t.R(), p requires 0 <= p < t.R() && p in t.got => t.got[p]) == t.published[..t.R()]
  {
    InitInv(s);
    RunInv(s, steps, t);
    CursorBounds(t);
  }
}
